/**
 * Conflict resolution: turns the caller's detected spans, in any order,
 * into the plan the engine applies. Spans are sorted by start (the longer
 * one first at a shared start), a span lying inside the last accepted span
 * is dropped, partial overlaps are kept, and neighbours of one entity type
 * separated only by spaces are merged into one span.
 */
module Conflicts {
  import opened Wrappers
  import opened Entities

  /** Sort order: ascending start; at a shared start the span reaching further comes first. */
  predicate Before(a: RecognizerResult, b: RecognizerResult)
  {
    a.start < b.start || (a.start == b.start && a.end >= b.end)
  }

  predicate Sorted(s: seq<RecognizerResult>)
  {
    forall i, j :: 0 <= i < j < |s| ==> Before(s[i], s[j])
  }

  /** Both starts and ends strictly increase, so no span contains another. */
  predicate StrictlyIncreasing(s: seq<RecognizerResult>)
  {
    forall i, j :: 0 <= i < j < |s| ==> s[i].start < s[j].start && s[i].end < s[j].end
  }

  /** Putting in front a span that comes before every other keeps a sequence sorted. */
  lemma {:induction false} PrependSorted(a: RecognizerResult, s: seq<RecognizerResult>)
    requires Sorted(s)
    requires forall y :: y in s ==> Before(a, y)
    ensures Sorted([a] + s)
  {
    var r := [a] + s;
    forall i, j | 0 <= i < j < |r| ensures Before(r[i], r[j]) {
      assert r[j] == s[j - 1];
      if i > 0 {
        assert r[i] == s[i - 1];
      }
    }
  }

  function Insert(x: RecognizerResult, s: seq<RecognizerResult>): (r: seq<RecognizerResult>)
    requires Sorted(s)
    ensures |r| == |s| + 1
    ensures forall y :: y in r <==> y == x || y in s
    ensures Sorted(r)
    ensures multiset(r) == multiset{x} + multiset(s)
  {
    if s == [] then [x]
    else if Before(x, s[0]) then
      PrependSorted(x, s);
      [x] + s
    else
      var rest := Insert(x, s[1..]);
      assert s == [s[0]] + s[1..];
      PrependSorted(s[0], rest);
      [s[0]] + rest
  }

  /** The spans in application order; equal keys keep their input order. */
  function SortSpans(s: seq<RecognizerResult>): (r: seq<RecognizerResult>)
    ensures |r| == |s|
    ensures forall y :: y in r <==> y in s
    ensures Sorted(r)
    ensures multiset(r) == multiset(s)
  {
    if s == [] then []
    else
      assert s == [s[0]] + s[1..];
      Insert(s[0], SortSpans(s[1..]))
  }

  /**
   * Walks sorted spans remembering the last accepted one; a span inside it
   * is dropped, any other span (a partial overlap included) is accepted.
   */
  function DropContained(s: seq<RecognizerResult>, last: Option<RecognizerResult>): (r: seq<RecognizerResult>)
    requires Sorted(s)
    requires last.Some? ==> forall y :: y in s ==> Before(last.value, y)
    ensures |r| <= |s|
    ensures forall p :: p in r ==> p in s
    ensures StrictlyIncreasing(r)
    ensures last.Some? ==> forall p :: p in r ==> last.value.start < p.start && last.value.end < p.end
  {
    if s == [] then []
    else if last.Some? && Contains(last.value, s[0]) then DropContained(s[1..], last)
    else
      assert s[0] in s;
      assert last.Some? ==> Before(last.value, s[0]) && !Contains(last.value, s[0]);
      assert last.Some? ==> last.value.start < s[0].start && last.value.end < s[0].end;
      var rest := DropContained(s[1..], Some(s[0]));
      assert forall p :: p in rest ==> p in s;
      [s[0]] + rest
  }

  /** Every span of `s` ends up inside an accepted span, or inside `last`. */
  lemma {:induction false} DropContainedCovers(s: seq<RecognizerResult>, last: Option<RecognizerResult>, y: RecognizerResult)
    requires Sorted(s)
    requires last.Some? ==> forall z :: z in s ==> Before(last.value, z)
    requires y in s
    ensures (last.Some? && Contains(last.value, y)) || exists p :: p in DropContained(s, last) && Contains(p, y)
  {
    var r := DropContained(s, last);
    if last.Some? && Contains(last.value, s[0]) {
      if y != s[0] {
        assert y in s[1..];
        DropContainedCovers(s[1..], last, y);
      }
    } else if y == s[0] {
      assert s[0] in r && Contains(s[0], y);
    } else {
      assert y in s[1..];
      DropContainedCovers(s[1..], Some(s[0]), y);
      assert s[0] in r;
    }
  }

  /** A span that no other span contains, and that `last` does not contain, is accepted. */
  lemma {:induction false} DropContainedKeeps(s: seq<RecognizerResult>, last: Option<RecognizerResult>, y: RecognizerResult)
    requires Sorted(s)
    requires last.Some? ==> forall z :: z in s ==> Before(last.value, z)
    requires y in s
    requires !(last.Some? && Contains(last.value, y))
    requires forall z :: z in s && z != y ==> !Contains(z, y)
    ensures y in DropContained(s, last)
  {
    if s[0] != y {
      assert y in s[1..];
      if last.Some? && Contains(last.value, s[0]) {
        DropContainedKeeps(s[1..], last, y);
      } else {
        DropContainedKeeps(s[1..], Some(s[0]), y);
      }
    }
  }

  /** Only one or more space characters. */
  predicate AllSpaces(gap: string)
  {
    |gap| > 0 && forall i :: 0 <= i < |gap| ==> gap[i] == ' '
  }

  /** Neighbours of one type separated by spaces only. */
  predicate Joinable(text: string, a: RecognizerResult, b: RecognizerResult)
  {
    a.entityType == b.entityType && a.end < b.start <= |text| && AllSpaces(text[a.end..b.start])
  }

  /** Putting in front a span that starts and ends before every other keeps the order strict. */
  lemma {:induction false} PrependIncreasing(a: RecognizerResult, s: seq<RecognizerResult>)
    requires StrictlyIncreasing(s)
    requires forall j :: 0 <= j < |s| ==> a.start < s[j].start && a.end < s[j].end
    ensures StrictlyIncreasing([a] + s)
  {
    var r := [a] + s;
    forall i, j | 0 <= i < j < |r| ensures r[i].start < r[j].start && r[i].end < r[j].end {
      assert r[j] == s[j - 1];
      if i > 0 {
        assert r[i] == s[i - 1];
      }
    }
  }

  /** Replacing the head by a span with an earlier start and the same end keeps the order strict. */
  lemma {:induction false} ReplaceHeadIncreasing(a: RecognizerResult, s: seq<RecognizerResult>)
    requires StrictlyIncreasing(s)
    requires |s| > 0 && a.start < s[0].start && a.end == s[0].end
    ensures StrictlyIncreasing([a] + s[1..])
  {
    var t := s[1..];
    forall j | 0 <= j < |t| ensures a.start < t[j].start && a.end < t[j].end {
      assert t[j] == s[j + 1];
    }
    PrependIncreasing(a, t);
  }

  /**
   * Joins each run of same-type neighbours separated by spaces into one
   * span from the first start to the last end.
   */
  function MergeBlankGaps(text: string, s: seq<RecognizerResult>): (r: seq<RecognizerResult>)
    ensures |r| <= |s|
    ensures |s| > 0 ==> |r| > 0 && r[0].start == s[0].start && r[0].entityType == s[0].entityType
  {
    if s == [] then []
    else
      var rest := MergeBlankGaps(text, s[1..]);
      if rest != [] && Joinable(text, s[0], rest[0]) then
        [RecognizerResult(s[0].entityType, s[0].start, rest[0].end)] + rest[1..]
      else
        [s[0]] + rest
  }

  /** Merged spans stay inside the text and never start or end before the first input span. */
  lemma {:induction false} MergeBlankGapsBounds(text: string, s: seq<RecognizerResult>)
    requires forall p :: p in s ==> WithinText(text, p)
    requires StrictlyIncreasing(s)
    ensures forall p :: p in MergeBlankGaps(text, s) ==> WithinText(text, p)
    ensures |s| > 0 ==> forall p :: p in MergeBlankGaps(text, s) ==> s[0].start <= p.start && s[0].end <= p.end
  {
    if s != [] {
      var tail := s[1..];
      var rest := MergeBlankGaps(text, tail);
      assert forall p :: p in tail ==> p in s;
      MergeBlankGapsBounds(text, tail);
      assert tail != [] ==> s[0].start < tail[0].start && s[0].end < tail[0].end;
      var r := MergeBlankGaps(text, s);
      if rest != [] && Joinable(text, s[0], rest[0]) {
        var merged := RecognizerResult(s[0].entityType, s[0].start, rest[0].end);
        assert r == [merged] + rest[1..];
        assert rest[0] in rest;
        assert forall p :: p in r ==> p == merged || p in rest by {
          assert forall p :: p in rest[1..] ==> p in rest;
        }
      } else {
        assert r == [s[0]] + rest;
      }
    }
  }

  /** Merging keeps the spans strictly ordered. */
  lemma {:induction false} MergeBlankGapsOrdered(text: string, s: seq<RecognizerResult>)
    requires forall p :: p in s ==> WithinText(text, p)
    requires StrictlyIncreasing(s)
    ensures StrictlyIncreasing(MergeBlankGaps(text, s))
  {
    if s != [] {
      var tail := s[1..];
      var rest := MergeBlankGaps(text, tail);
      assert forall p :: p in tail ==> p in s;
      MergeBlankGapsOrdered(text, tail);
      MergeBlankGapsBounds(text, tail);
      assert tail != [] ==> s[0].start < tail[0].start && s[0].end < tail[0].end;
      var r := MergeBlankGaps(text, s);
      if rest != [] && Joinable(text, s[0], rest[0]) {
        var merged := RecognizerResult(s[0].entityType, s[0].start, rest[0].end);
        assert r == [merged] + rest[1..];
        ReplaceHeadIncreasing(merged, rest);
      } else {
        assert r == [s[0]] + rest;
        assert forall j :: 0 <= j < |rest| ==> rest[j] in rest;
        PrependIncreasing(s[0], rest);
      }
    }
  }

  /** Each span of `s` lies inside a merged span of its own type. */
  lemma {:induction false} MergeKeepsEverySpan(text: string, s: seq<RecognizerResult>)
    requires forall p :: p in s ==> WithinText(text, p)
    requires StrictlyIncreasing(s)
    ensures forall y :: y in s ==>
      exists p :: p in MergeBlankGaps(text, s) && p.entityType == y.entityType && Contains(p, y)
  {
    if s != [] {
      var r := MergeBlankGaps(text, s);
      var rest := MergeBlankGaps(text, s[1..]);
      MergeKeepsEverySpan(text, s[1..]);
      forall y | y in s
        ensures exists p :: p in r && p.entityType == y.entityType && Contains(p, y)
      {
        if y == s[0] {
          MergeBlankGapsBounds(text, s[1..]);
          assert rest != [] ==> rest[0] in rest;
          assert r[0].entityType == y.entityType && Contains(r[0], y);
        } else {
          assert y in s[1..];
          var q :| q in rest && q.entityType == y.entityType && Contains(q, y);
          if rest != [] && Joinable(text, s[0], rest[0]) {
            if q == rest[0] {
              assert r[0].entityType == y.entityType && Contains(r[0], y);
            } else {
              assert q in rest[1..];
              assert q in r;
            }
          } else {
            assert q in r;
          }
        }
      }
    }
  }

  /** Neighbours s[i], ..., s[j] are each joinable with the next. */
  predicate JoinableRun(text: string, s: seq<RecognizerResult>, i: nat, j: nat)
  {
    i <= j < |s| && forall m :: i <= m < j ==> Joinable(text, s[m], s[m + 1])
  }

  /** A run that cannot be extended: no joinable neighbour before s[i] or after s[j]. */
  predicate MaximalRun(text: string, s: seq<RecognizerResult>, i: nat, j: nat)
  {
    && JoinableRun(text, s, i, j)
    && (i == 0 || !Joinable(text, s[i - 1], s[i]))
    && (j + 1 == |s| || !Joinable(text, s[j], s[j + 1]))
  }

  /** What a run becomes: the first span's type and start, the last span's end. */
  function RunSpan(s: seq<RecognizerResult>, i: nat, j: nat): (p: RecognizerResult)
    requires i <= j < |s|
    ensures i == j ==> p == s[i]
  {
    RecognizerResult(s[i].entityType, s[i].start, s[j].end)
  }

  /** A run of the tail is a run of the whole sequence, one index further on. */
  lemma {:induction false} TailRun(text: string, s: seq<RecognizerResult>, i: nat, j: nat)
    requires s != [] && JoinableRun(text, s[1..], i, j)
    ensures JoinableRun(text, s, i + 1, j + 1) && RunSpan(s[1..], i, j) == RunSpan(s, i + 1, j + 1)
  {
    var tail := s[1..];
    forall m | i + 1 <= m < j + 1 ensures Joinable(text, s[m], s[m + 1]) {
      assert Joinable(text, tail[m - 1], tail[m]);
    }
  }

  /** A maximal run of the tail is a maximal run of the whole sequence when it does not start the tail. */
  lemma {:induction false} TailMaximalRun(text: string, s: seq<RecognizerResult>, i: nat, j: nat)
    requires s != [] && MaximalRun(text, s[1..], i, j)
    requires i == 0 ==> !Joinable(text, s[0], s[1])
    ensures MaximalRun(text, s, i + 1, j + 1) && RunSpan(s[1..], i, j) == RunSpan(s, i + 1, j + 1)
  {
    var tail := s[1..];
    TailRun(text, s, i, j);
    if i > 0 {
      assert tail[i - 1] == s[i] && tail[i] == s[i + 1];
    }
    if j + 1 < |tail| {
      assert tail[j] == s[j + 1] && tail[j + 1] == s[j + 2];
    }
  }

  /** The first merged span is the maximal run that starts at the first span, given that this holds for the tail. */
  lemma {:induction false} MergedHeadRun(text: string, s: seq<RecognizerResult>) returns (first: nat)
    requires s != []
    requires |s| > 1 ==> exists j :: MaximalRun(text, s[1..], 0, j) && MergeBlankGaps(text, s[1..])[0] == RunSpan(s[1..], 0, j)
    ensures MaximalRun(text, s, 0, first) && MergeBlankGaps(text, s)[0] == RunSpan(s, 0, first)
  {
    var tail := s[1..];
    var rest := MergeBlankGaps(text, tail);
    var r := MergeBlankGaps(text, s);
    first := 0;
    if rest != [] && Joinable(text, s[0], rest[0]) {
      var j: nat :| MaximalRun(text, tail, 0, j) && rest[0] == RunSpan(tail, 0, j);
      TailRun(text, s, 0, j);
      assert Joinable(text, s[0], s[1]);
      if j + 1 < |tail| {
        assert tail[j] == s[j + 1] && tail[j + 1] == s[j + 2];
      }
      first := j + 1;
      assert r == [RunSpan(s, 0, first)] + rest[1..];
    } else {
      assert r == [s[0]] + rest;
      if tail != [] {
        assert rest[0].start == s[1].start && rest[0].entityType == s[1].entityType;
        assert !Joinable(text, s[0], s[1]);
      }
    }
  }

  /** In a strictly increasing sequence every span after the head starts after it. */
  lemma {:induction false} HeadStartsFirst(s: seq<RecognizerResult>)
    requires StrictlyIncreasing(s) && s != []
    ensures forall q :: q in s[1..] ==> s[0].start < q.start
  {
    forall q | q in s[1..] ensures s[0].start < q.start {
      var k :| 0 <= k < |s| - 1 && s[1..][k] == q;
      assert s[k + 1] == q;
    }
  }

  /** A merged span after the first is a maximal run of the tail, and so of the whole sequence. */
  lemma {:induction false} MergedTailRun(text: string, s: seq<RecognizerResult>, p: RecognizerResult)
    requires s != [] && StrictlyIncreasing(MergeBlankGaps(text, s[1..]))
    requires p in MergeBlankGaps(text, s) && p != MergeBlankGaps(text, s)[0]
    requires forall q :: q in MergeBlankGaps(text, s[1..]) ==>
      exists i, j :: MaximalRun(text, s[1..], i, j) && q == RunSpan(s[1..], i, j)
    ensures exists i, j :: MaximalRun(text, s, i, j) && p == RunSpan(s, i, j)
  {
    var tail := s[1..];
    var rest := MergeBlankGaps(text, tail);
    var joined := rest != [] && Joinable(text, s[0], rest[0]);
    if joined {
      assert p in rest[1..];
    } else {
      assert MergeBlankGaps(text, s) == [s[0]] + rest;
    }
    assert p in rest;
    var i: nat, j: nat :| MaximalRun(text, tail, i, j) && p == RunSpan(tail, i, j);
    if joined {
      HeadStartsFirst(rest);
      assert tail[0].start == rest[0].start < tail[i].start;
    } else if i == 0 {
      assert rest[0].start == s[1].start && rest[0].entityType == s[1].entityType;
    }
    TailMaximalRun(text, s, i, j);
  }

  /**
   * Nothing else is merged: every merged span is the join of a maximal run
   * of spaces-separated neighbours of one type (a single input span when
   * the run has one member), and the first merged span is the maximal run
   * that starts at the first input span.
   */
  lemma {:induction false} MergedSpansAreRuns(text: string, s: seq<RecognizerResult>)
    requires forall p :: p in s ==> WithinText(text, p)
    requires StrictlyIncreasing(s)
    ensures var r := MergeBlankGaps(text, s);
      && (|s| > 0 ==> exists j :: MaximalRun(text, s, 0, j) && r[0] == RunSpan(s, 0, j))
      && forall p :: p in r ==> exists i, j :: MaximalRun(text, s, i, j) && p == RunSpan(s, i, j)
  {
    if s != [] {
      var r := MergeBlankGaps(text, s);
      assert forall p :: p in s[1..] ==> p in s;
      MergedSpansAreRuns(text, s[1..]);
      MergeBlankGapsOrdered(text, s[1..]);
      var first := MergedHeadRun(text, s);
      forall p | p in r ensures exists i, j :: MaximalRun(text, s, i, j) && p == RunSpan(s, i, j) {
        if p == r[0] {
          assert MaximalRun(text, s, 0, first) && p == RunSpan(s, 0, first);
        } else {
          MergedTailRun(text, s, p);
        }
      }
    }
  }

  /** When the first two spans are joinable, the first merged span starts at the first and covers both. */
  lemma {:induction false} MergeJoinsHead(text: string, s: seq<RecognizerResult>)
    requires forall p :: p in s ==> WithinText(text, p)
    requires StrictlyIncreasing(s)
    requires 1 < |s| && Joinable(text, s[0], s[1])
    ensures var r := MergeBlankGaps(text, s);
      r[0].entityType == s[0].entityType && Contains(r[0], s[0]) && Contains(r[0], s[1])
  {
    var tail := s[1..];
    var rest := MergeBlankGaps(text, tail);
    assert forall p :: p in tail ==> p in s;
    MergeBlankGapsBounds(text, tail);
    assert rest[0] in rest;
    assert Joinable(text, s[0], rest[0]);
  }

  /** A merged span of the tail is inside some merged span of the whole sequence, of the same type. */
  lemma {:induction false} MergeKeepsTailSpans(text: string, s: seq<RecognizerResult>, q: RecognizerResult)
    requires StrictlyIncreasing(s)
    requires s != [] && q in MergeBlankGaps(text, s[1..])
    ensures exists p :: p in MergeBlankGaps(text, s) && p.entityType == q.entityType && Contains(p, q)
  {
    var rest := MergeBlankGaps(text, s[1..]);
    var r := MergeBlankGaps(text, s);
    if rest != [] && Joinable(text, s[0], rest[0]) && q == rest[0] {
      assert s[0].start < s[1].start;
      assert Contains(r[0], q);
    } else if rest != [] && Joinable(text, s[0], rest[0]) {
      assert q in rest[1..];
      assert q in r;
    } else {
      assert q in r;
    }
  }

  /** Two neighbours separated only by spaces, of one type, end up in one merged span of that type. */
  lemma {:induction false} MergeJoinsNeighbours(text: string, s: seq<RecognizerResult>, i: nat)
    requires forall p :: p in s ==> WithinText(text, p)
    requires StrictlyIncreasing(s)
    requires i + 1 < |s| && Joinable(text, s[i], s[i + 1])
    ensures exists p :: p in MergeBlankGaps(text, s) && p.entityType == s[i].entityType
                        && Contains(p, s[i]) && Contains(p, s[i + 1])
  {
    if i == 0 {
      MergeJoinsHead(text, s);
      assert MergeBlankGaps(text, s)[0] in MergeBlankGaps(text, s);
    } else {
      var tail := s[1..];
      assert forall p :: p in tail ==> p in s;
      assert tail[i - 1] == s[i] && tail[i] == s[i + 1];
      MergeJoinsNeighbours(text, tail, i - 1);
      var q :| q in MergeBlankGaps(text, tail) && q.entityType == tail[i - 1].entityType
               && Contains(q, tail[i - 1]) && Contains(q, tail[i]);
      MergeKeepsTailSpans(text, s, q);
      var p :| p in MergeBlankGaps(text, s) && p.entityType == q.entityType && Contains(p, q);
      assert Contains(p, s[i]) && Contains(p, s[i + 1]);
    }
  }

  /** The plan: sorted, contained spans dropped, blank-separated neighbours of one type merged. */
  function Resolve(text: string, spans: seq<RecognizerResult>): (plan: seq<RecognizerResult>)
    requires forall p :: p in spans ==> WithinText(text, p)
    ensures |plan| <= |spans|
    ensures StrictlyIncreasing(plan)
    ensures forall p :: p in plan ==> WithinText(text, p)
  {
    var kept := DropContained(SortSpans(spans), None);
    MergeBlankGapsBounds(text, kept);
    MergeBlankGapsOrdered(text, kept);
    MergeBlankGaps(text, kept)
  }

  /** Every detected span lies inside some planned span. */
  lemma {:induction false} ResolveCovers(text: string, spans: seq<RecognizerResult>, y: RecognizerResult)
    requires forall p :: p in spans ==> WithinText(text, p)
    requires y in spans
    ensures exists p :: p in Resolve(text, spans) && Contains(p, y)
  {
    var sorted := SortSpans(spans);
    var kept := DropContained(sorted, None);
    assert Resolve(text, spans) == MergeBlankGaps(text, kept);
    assert y in sorted;
    DropContainedCovers(sorted, None, y);
    var q :| q in kept && Contains(q, y);
    var p := MergedSpanOf(text, kept, q);
    assert Contains(p, y);
  }

  /** A span that no other detected span contains survives with its own entity type. */
  lemma {:induction false} ResolveKeepsPartialOverlaps(text: string, spans: seq<RecognizerResult>, y: RecognizerResult)
    requires forall p :: p in spans ==> WithinText(text, p)
    requires y in spans
    requires forall z :: z in spans && z != y ==> !Contains(z, y)
    ensures exists p :: p in Resolve(text, spans) && p.entityType == y.entityType && Contains(p, y)
  {
    var sorted := SortSpans(spans);
    var kept := DropContained(sorted, None);
    DropContainedKeeps(sorted, None, y);
    var p := MergedSpanOf(text, kept, y);
  }

  /** The planned span that a kept span was merged into (possibly itself). */
  lemma {:induction false} MergedSpanOf(text: string, kept: seq<RecognizerResult>, q: RecognizerResult)
    returns (p: RecognizerResult)
    requires forall p :: p in kept ==> WithinText(text, p)
    requires StrictlyIncreasing(kept)
    requires q in kept
    ensures p in MergeBlankGaps(text, kept) && p.entityType == q.entityType && Contains(p, q)
  {
    MergeKeepsEverySpan(text, kept);
    p :| p in MergeBlankGaps(text, kept) && p.entityType == q.entityType && Contains(p, q);
  }

  /** No two different detections cover exactly the same range. */
  predicate DistinctRanges(s: seq<RecognizerResult>)
  {
    forall a, b :: a in s && b in s && a.start == b.start && a.end == b.end ==> a == b
  }

  /** Two sorted arrangements of the same detections with distinct ranges start alike. */
  lemma {:induction false} SortedSameHead(x: seq<RecognizerResult>, y: seq<RecognizerResult>)
    requires Sorted(x) && Sorted(y)
    requires x != [] && multiset(x) == multiset(y)
    requires DistinctRanges(x)
    ensures y != [] && x[0] == y[0]
  {
    assert x[0] in multiset(y);
    assert y[0] in multiset(x);
    var i :| 0 <= i < |y| && y[i] == x[0];
    var j :| 0 <= j < |x| && x[j] == y[0];
    assert Before(y[0], x[0]) by {
      if i > 0 {
        assert Before(y[0], y[i]);
      }
    }
    assert Before(x[0], y[0]) by {
      if j > 0 {
        assert Before(x[0], x[j]);
      }
    }
    assert x[0] in x && y[0] in x;
  }

  /** Removing the equal heads of two sequences with the same elements leaves the same elements. */
  lemma {:induction false} SameTails(x: seq<RecognizerResult>, y: seq<RecognizerResult>)
    requires x != [] && y != [] && x[0] == y[0]
    requires multiset(x) == multiset(y)
    ensures multiset(x[1..]) == multiset(y[1..])
  {
    assert x == [x[0]] + x[1..];
    assert y == [y[0]] + y[1..];
    assert multiset(x[1..]) == multiset(x) - multiset{x[0]};
    assert multiset(y[1..]) == multiset(y) - multiset{y[0]};
  }

  lemma {:induction false} TailProperties(x: seq<RecognizerResult>)
    requires x != [] && Sorted(x) && DistinctRanges(x)
    ensures Sorted(x[1..]) && DistinctRanges(x[1..])
  {
    assert forall p :: p in x[1..] ==> p in x;
  }

  /** Two sorted arrangements of the same detections with distinct ranges are identical. */
  lemma {:induction false} SortedUnique(x: seq<RecognizerResult>, y: seq<RecognizerResult>)
    requires Sorted(x) && Sorted(y)
    requires multiset(x) == multiset(y)
    requires DistinctRanges(x)
    ensures x == y
  {
    if x == [] {
      assert |y| == |multiset(y)| == 0;
    } else {
      SortedSameHead(x, y);
      SameTails(x, y);
      TailProperties(x);
      assert Sorted(y[1..]);
      SortedUnique(x[1..], y[1..]);
      assert x == [x[0]] + x[1..] && y == [y[0]] + y[1..];
    }
  }

  /** The plan does not depend on the order in which the detections are given. */
  lemma {:induction false} ResolveIgnoresOrder(text: string, a: seq<RecognizerResult>, b: seq<RecognizerResult>)
    requires forall p :: p in a ==> WithinText(text, p)
    requires forall p :: p in b ==> WithinText(text, p)
    requires multiset(a) == multiset(b)
    requires DistinctRanges(a)
    ensures Resolve(text, a) == Resolve(text, b)
  {
    var sa, sb := SortSpans(a), SortSpans(b);
    assert DistinctRanges(sa);
    SortedUnique(sa, sb);
  }

  /** The entity types occurring in a sequence of spans. */
  function Types(s: seq<RecognizerResult>): set<string>
  {
    set p | p in s :: p.entityType
  }

  /** Merging introduces no entity type that was not detected. */
  lemma {:induction false} MergeKeepsTypes(text: string, s: seq<RecognizerResult>)
    ensures Types(MergeBlankGaps(text, s)) <= Types(s)
  {
    if s != [] {
      MergeKeepsTypes(text, s[1..]);
      var rest := MergeBlankGaps(text, s[1..]);
      assert Types(s) == {s[0].entityType} + Types(s[1..]) by {
        assert s == [s[0]] + s[1..];
      }
      if rest != [] && Joinable(text, s[0], rest[0]) {
        assert Types(rest) == {rest[0].entityType} + Types(rest[1..]) by {
          assert rest == [rest[0]] + rest[1..];
        }
      }
    }
  }

  /** Every planned span carries an entity type that was detected. */
  lemma {:induction false} ResolveKeepsTypes(text: string, spans: seq<RecognizerResult>)
    requires forall p :: p in spans ==> WithinText(text, p)
    ensures Types(Resolve(text, spans)) <= Types(spans)
  {
    var sorted := SortSpans(spans);
    var kept := DropContained(sorted, None);
    MergeKeepsTypes(text, kept);
    assert Types(kept) <= Types(spans) by {
      forall t | t in Types(kept) ensures t in Types(spans) {
        var p :| p in kept && p.entityType == t;
        assert p in spans;
      }
    }
  }

  /** A single detection is its own plan. */
  lemma {:induction false} ResolveSingle(text: string, span: RecognizerResult)
    requires WithinText(text, span)
    ensures Resolve(text, [span]) == [span]
  {
    assert [span][1..] == [];
    assert SortSpans([span]) == [span];
    assert DropContained([span], None) == [span] + DropContained([], Some(span));
  }

  /** Putting in front a span that ends before every other starts keeps spans from overlapping. */
  lemma {:induction false} PrependNoOverlaps(a: RecognizerResult, s: seq<RecognizerResult>)
    requires NoOverlaps(s)
    requires forall p :: p in s ==> a.end <= p.start
    ensures NoOverlaps([a] + s)
  {
    forall x, y | x in [a] + s && y in [a] + s && x != y ensures x.end <= y.start || y.end <= x.start {
      assert x == a || x in s;
      assert y == a || y in s;
    }
  }

  /** Replacing the head by a span with an earlier start and the same end keeps spans from overlapping. */
  lemma {:induction false} ReplaceHeadNoOverlaps(a: RecognizerResult, s: seq<RecognizerResult>)
    requires NoOverlaps(s) && StrictlyIncreasing(s)
    requires |s| > 0 && a.end == s[0].end
    ensures NoOverlaps([a] + s[1..])
  {
    var t := s[1..];
    forall p | p in t ensures a.end <= p.start {
      var k :| 0 <= k < |t| && t[k] == p;
      assert p == s[k + 1] && s[0] != p;
    }
    assert forall p :: p in t ==> p in s;
    PrependNoOverlaps(a, t);
  }

  /** The tail of spans inside the text, strictly ordered and sharing no character, is so too. */
  lemma {:induction false} TailNoOverlaps(text: string, s: seq<RecognizerResult>)
    requires forall p :: p in s ==> WithinText(text, p)
    requires StrictlyIncreasing(s) && NoOverlaps(s) && s != []
    ensures forall p :: p in s[1..] ==> WithinText(text, p)
    ensures StrictlyIncreasing(s[1..]) && NoOverlaps(s[1..])
  {
    assert forall p :: p in s[1..] ==> p in s;
  }

  /** When spans share no character, every merged span of the tail starts after the head ends. */
  lemma {:induction false} MergedTailAfterHead(text: string, s: seq<RecognizerResult>)
    requires forall p :: p in s ==> WithinText(text, p)
    requires StrictlyIncreasing(s) && NoOverlaps(s) && s != []
    ensures forall p :: p in MergeBlankGaps(text, s[1..]) ==> s[0].end <= p.start
  {
    var tail := s[1..];
    assert forall p :: p in tail ==> p in s;
    MergeBlankGapsBounds(text, tail);
    if tail != [] {
      assert s[0] in s && tail[0] in s && s[0] != tail[0];
    }
  }

  /** Merging spans that share no character leaves spans that share no character. */
  lemma {:induction false} MergeKeepsNoOverlaps(text: string, s: seq<RecognizerResult>)
    requires forall p :: p in s ==> WithinText(text, p)
    requires StrictlyIncreasing(s) && NoOverlaps(s)
    ensures NoOverlaps(MergeBlankGaps(text, s))
  {
    if s != [] {
      var tail := s[1..];
      var rest := MergeBlankGaps(text, tail);
      TailNoOverlaps(text, s);
      MergeKeepsNoOverlaps(text, tail);
      if rest != [] && Joinable(text, s[0], rest[0]) {
        MergeBlankGapsOrdered(text, tail);
        ReplaceHeadNoOverlaps(RecognizerResult(s[0].entityType, s[0].start, rest[0].end), rest);
      } else {
        MergedTailAfterHead(text, s);
        PrependNoOverlaps(s[0], rest);
      }
    }
  }

  /** Detections that share no character give a plan whose spans share none either. */
  lemma {:induction false} ResolveKeepsNoOverlaps(text: string, spans: seq<RecognizerResult>)
    requires forall p :: p in spans ==> WithinText(text, p)
    requires NoOverlaps(spans)
    ensures NoOverlaps(Resolve(text, spans))
  {
    var kept := DropContained(SortSpans(spans), None);
    MergeBlankGapsBounds(text, kept);
    MergeKeepsNoOverlaps(text, kept);
  }

  /** Nothing that lies outside both or strictly inside one comes between two kept spans. */
  lemma {:induction false} KeptAdjacent(kept: seq<RecognizerResult>, spans: seq<RecognizerResult>,
                                        a: RecognizerResult, b: RecognizerResult, i: nat, j: nat)
    requires StrictlyIncreasing(kept) && forall p :: p in kept ==> p in spans
    requires i < |kept| && j < |kept| && kept[i] == a && kept[j] == b && a.start < a.end < b.start < b.end
    requires forall z :: z in spans && z != a && z != b ==>
      || z.end <= a.start || b.end <= z.start
      || (Contains(a, z) && !Contains(z, a))
      || (Contains(b, z) && !Contains(z, b))
    ensures j == i + 1
  {
    assert i < j;
    var next := kept[i + 1];
    assert next in spans && a.start < next.start && a.end < next.end;
    assert next == b;
  }

  /**
   * Two detections of one type separated only by spaces are replaced as one
   * span, when every other detection lies outside them or strictly inside
   * one of them.
   */
  lemma {:induction false} ResolveJoinsNeighbours(text: string, spans: seq<RecognizerResult>,
                                                  a: RecognizerResult, b: RecognizerResult)
    requires forall p :: p in spans ==> WithinText(text, p)
    requires a in spans && b in spans && Joinable(text, a, b)
    requires forall z :: z in spans && z != a && z != b ==>
      || z.end <= a.start || b.end <= z.start
      || (Contains(a, z) && !Contains(z, a))
      || (Contains(b, z) && !Contains(z, b))
    ensures exists p :: p in Resolve(text, spans) && p.entityType == a.entityType && Contains(p, a) && Contains(p, b)
  {
    var kept := DropContained(SortSpans(spans), None);
    assert WithinText(text, a) && WithinText(text, b);
    forall z | z in spans && z != a ensures !Contains(z, a) {
      assert z == b || z.end <= a.start || b.end <= z.start || !Contains(z, a) || b.start <= z.start;
    }
    DropContainedKeeps(SortSpans(spans), None, a);
    forall z | z in spans && z != b ensures !Contains(z, b) {
      assert z == a || z.end <= a.start || b.end <= z.start || Contains(a, z) || !Contains(z, b);
    }
    DropContainedKeeps(SortSpans(spans), None, b);
    var i :| 0 <= i < |kept| && kept[i] == a;
    var j :| 0 <= j < |kept| && kept[j] == b;
    KeptAdjacent(kept, spans, a, b, i, j);
    assert forall p :: p in kept ==> WithinText(text, p);
    MergeJoinsNeighbours(text, kept, i);
  }
}
