/**
 The cursor loop shared by the whole-term scanners of the repository.

 `UsingRawByteStream.FindPattern` (over bytes) and the triplicated
 `FindCandidate` of `UsingStreaming`, `UsingStreamReader` and `UsingPipes`
 (over chars) are the same loop: move a `SequenceReader` to the next delimiter,
 stop short when fewer than `width` elements remain, otherwise compare the
 `width`-long window at the delimiter and either report a match or continue
 from wherever the comparison left the reader.  The comparison is the only
 part that differs between the two, so it is a parameter here: a `judge` that
 looks at the window and either accepts it or says how far into the window
 the reader was left.

 The haystack is a `seq<T>` and the reader is an index into it.
 */
module Scanner {
  import opened Common

  /** What a comparison concluded about the window at a delimiter: a match, or
      a failure that left the reader `resume` elements past the delimiter. */
  datatype Verdict = Accept | Reject(resume: nat)

  /** Where a scan goes on after a failed comparison: wherever the
      comparison left the reader, as every scanner of the repository does,
      or at the element after the candidate's first one, under which no
      occurrence can be skipped. */
  datatype Resume = WhereLeft | AfterCandidateStart

  /** How one scan ended: a match occupying `[start, end)`; a delimiter at
      `at` too close to the end to decide; or no further delimiter at all. */
  datatype Hit = Found(start: nat, end: nat) | Short(at: nat) | NoDelimiter

  /** A judge that moves the reader at least one and at most `width` elements
      forward whenever it rejects, so the loop below always makes progress. */
  ghost predicate Advances<T(!new)>(width: nat, judge: seq<T> -> Verdict) {
    forall w: seq<T> {:trigger judge(w)} :: |w| == width && judge(w).Reject? ==> 1 <= judge(w).resume <= width
  }

  /** A judge that always resumes at the element after the candidate's first
      one: the policy under which no occurrence can be skipped. */
  ghost predicate Restarts<T(!new)>(width: nat, judge: seq<T> -> Verdict) {
    forall w: seq<T> {:trigger judge(w)} :: |w| == width && judge(w).Reject? ==> judge(w).resume == 1
  }

  /** `h[p..]` starts with a window the judge accepts, led by a delimiter. */
  ghost predicate Occurs<T(!new)>(h: seq<T>, delims: set<T>, width: nat, judge: seq<T> -> Verdict, p: nat) {
    p < |h| && p + width <= |h| && h[p] in delims && judge(h[p..p + width]) == Accept
  }

  /** `SequenceReader.TryAdvanceToAny(delimiters, false)` and
      `TryReadToAny(out _, delimiters, false)`: the first delimiter at or after
      the reader, if there is one. */
  function NextDelimiter<T(!new)>(h: seq<T>, delims: set<T>, c: nat): (r: Option<nat>)
    requires c <= |h|
    ensures r.Some? ==> c <= r.value < |h|
    decreases |h| - c
  {
    if c == |h| then None
    else if h[c] in delims then Some(c)
    else NextDelimiter(h, delims, c + 1)
  }

  /** The delimiter found is the first one at or after the reader; none is
      found only when there is none. */
  lemma {:induction false} NextDelimiterIsFirst<T(!new)>(h: seq<T>, delims: set<T>, c: nat)
    requires c <= |h|
    ensures var r := NextDelimiter(h, delims, c);
            && (r.Some? ==> h[r.value] in delims && forall i :: c <= i < r.value ==> h[i] !in delims)
            && (r.None? <==> forall i :: c <= i < |h| ==> h[i] !in delims)
    decreases |h| - c
  {
    if c < |h| && h[c] !in delims {
      NextDelimiterIsFirst(h, delims, c + 1);
    }
  }

  /** One turn of the scan loop with the reader at `c`: it either ends the
      scan or leaves the reader at `next`, strictly further on. */
  datatype Step = Stop(hit: Hit) | Continue(next: nat)

  function ScanStep<T(!new)>(h: seq<T>, delims: set<T>, width: nat, judge: seq<T> -> Verdict, c: nat): (s: Step)
    requires c <= |h| && 1 <= width && Advances(width, judge)
    ensures s.Continue? ==> c < s.next <= |h|
  {
    match NextDelimiter(h, delims, c)
    case None => Stop(NoDelimiter)
    case Some(d) =>
      if |h| - d < width then Stop(Short(d))
      else
        match judge(h[d..d + width])
        case Accept => Stop(Found(d, d + width))
        case Reject(k) => Continue(d + k)
  }

  /** The scan loop, started with the reader at `c`. */
  function FindFrom<T(!new)>(h: seq<T>, delims: set<T>, width: nat, judge: seq<T> -> Verdict, c: nat): (r: Hit)
    requires c <= |h| && 1 <= width && Advances(width, judge)
    ensures r.Found? ==> c <= r.start && r.end == r.start + width <= |h|
    ensures r.Short? ==> c <= r.at < |h|
    decreases |h| - c
  {
    match ScanStep(h, delims, width, judge, c)
    case Stop(r) => r
    case Continue(n) => FindFrom(h, delims, width, judge, n)
  }

  /** What each way of ending the scan means: a match is an occurrence led
      by a delimiter; a short candidate is a delimiter closer than `width` to
      the end; without any delimiter left the scan finds nothing. */
  lemma {:induction false} FindFromSound<T(!new)>(h: seq<T>, delims: set<T>, width: nat, judge: seq<T> -> Verdict, c: nat)
    requires c <= |h| && 1 <= width && Advances(width, judge)
    ensures var r := FindFrom(h, delims, width, judge, c);
            && (r.Found? ==> Occurs(h, delims, width, judge, r.start))
            && (r.Short? ==> h[r.at] in delims && |h| - r.at < width)
            && ((forall i :: c <= i < |h| ==> h[i] !in delims) ==> r.NoDelimiter?)
    decreases |h| - c
  {
    NextDelimiterIsFirst(h, delims, c);
    match ScanStep(h, delims, width, judge, c)
    case Stop(r) =>
    case Continue(n) =>
      FindFromSound(h, delims, width, judge, n);
  }

  /** The whole-input replacement: scan from the start, emit everything
      before a match followed by the replacement, continue after the match;
      once no match is found the rest passes through unchanged. */
  function ReplaceAll<T(!new)>(h: seq<T>, delims: set<T>, width: nat, judge: seq<T> -> Verdict, replacement: seq<T>): seq<T>
    requires 1 <= width && Advances(width, judge)
    decreases |h|
  {
    match FindFrom(h, delims, width, judge, 0)
    case Found(s, e) => h[..s] + replacement + ReplaceAll(h[e..], delims, width, judge, replacement)
    case _ => h
  }

  function ShiftHit(r: Hit, n: nat): Hit {
    match r
    case Found(s, e) => Found(s + n, e + n)
    case Short(a) => Short(a + n)
    case NoDelimiter => NoDelimiter
  }

  function ShiftStep(s: Step, n: nat): Step {
    match s
    case Stop(r) => Stop(ShiftHit(r, n))
    case Continue(m) => Continue(m + n)
  }

  /** Moving the reader over elements that are not delimiters changes nothing. */
  lemma SkipNonDelimiters<T(!new)>(h: seq<T>, delims: set<T>, width: nat, judge: seq<T> -> Verdict, c: nat, m: nat)
    requires c <= m <= |h| && 1 <= width && Advances(width, judge)
    requires forall i :: c <= i < m ==> h[i] !in delims
    ensures ScanStep(h, delims, width, judge, c) == ScanStep(h, delims, width, judge, m)
    ensures FindFrom(h, delims, width, judge, c) == FindFrom(h, delims, width, judge, m)
  {
    var n1 := NextDelimiter(h, delims, c);
    var n2 := NextDelimiter(h, delims, m);
    NextDelimiterIsFirst(h, delims, c);
    NextDelimiterIsFirst(h, delims, m);
    if n2.Some? {
      assert n1.Some? && n1.value == n2.value;
    } else {
      assert n1.None?;
    }
  }

  /** One turn of the loop looks only at the elements it passes. */
  lemma StepShift<T(!new)>(x: seq<T>, y: seq<T>, delims: set<T>, width: nat, judge: seq<T> -> Verdict, c: nat)
    requires |x| <= c <= |x| + |y| && 1 <= width && Advances(width, judge)
    ensures ScanStep(x + y, delims, width, judge, c) == ShiftStep(ScanStep(y, delims, width, judge, c - |x|), |x|)
  {
    var h := x + y;
    var ny := NextDelimiter(y, delims, c - |x|);
    var nh := NextDelimiter(h, delims, c);
    NextDelimiterIsFirst(y, delims, c - |x|);
    NextDelimiterIsFirst(h, delims, c);
    if ny.None? {
      assert nh.None? by {
        forall i | c <= i < |h| ensures h[i] !in delims {
          assert h[i] == y[i - |x|];
        }
      }
    } else {
      var d := ny.value;
      assert h[|x| + d] == y[d];
      assert nh.Some? && nh.value == |x| + d by {
        forall i | c <= i < |x| + d ensures h[i] !in delims {
          assert h[i] == y[i - |x|];
        }
      }
      if |y| - d >= width {
        assert h[|x| + d..|x| + d + width] == y[d..d + width];
      }
    }
  }

  /** The scan only ever looks at the elements it passes: preceding the
      haystack with `x` shifts the outcome by `|x|`. */
  lemma {:induction false} FindShift<T(!new)>(x: seq<T>, y: seq<T>, delims: set<T>, width: nat, judge: seq<T> -> Verdict, c: nat)
    requires |x| <= c <= |x| + |y| && 1 <= width && Advances(width, judge)
    ensures FindFrom(x + y, delims, width, judge, c) == ShiftHit(FindFrom(y, delims, width, judge, c - |x|), |x|)
    decreases |x| + |y| - c
  {
    StepShift(x, y, delims, width, judge, c);
    var s := ScanStep(y, delims, width, judge, c - |x|);
    var t := ScanStep(x + y, delims, width, judge, c);
    if s.Continue? {
      FindShift(x, y, delims, width, judge, t.next);
    }
  }

  /** One turn of the loop over a prefix `a` decides the same turn over
      `a + b`, except where it ran out of `a`. */
  lemma StepExtend<T(!new)>(a: seq<T>, b: seq<T>, delims: set<T>, width: nat, judge: seq<T> -> Verdict, c: nat)
    requires c <= |a| && 1 <= width && Advances(width, judge)
    ensures match ScanStep(a, delims, width, judge, c)
            case Stop(Short(d)) => ScanStep(a + b, delims, width, judge, c) == ScanStep(a + b, delims, width, judge, d)
            case Stop(NoDelimiter) => ScanStep(a + b, delims, width, judge, c) == ScanStep(a + b, delims, width, judge, |a|)
            case _ => ScanStep(a + b, delims, width, judge, c) == ScanStep(a, delims, width, judge, c)
  {
    var h := a + b;
    var na := NextDelimiter(a, delims, c);
    NextDelimiterIsFirst(a, delims, c);
    if na.None? {
      assert forall i :: c <= i < |a| ==> h[i] !in delims by {
        forall i | c <= i < |a| ensures h[i] !in delims {
          assert h[i] == a[i];
        }
      }
      SkipNonDelimiters(h, delims, width, judge, c, |a|);
    } else {
      var d := na.value;
      assert forall i :: c <= i < d ==> h[i] !in delims by {
        forall i | c <= i < d ensures h[i] !in delims {
          assert h[i] == a[i];
        }
      }
      SkipNonDelimiters(h, delims, width, judge, c, d);
      assert h[d] == a[d];
      if |a| - d >= width {
        assert h[d..d + width] == a[d..d + width];
      }
    }
  }

  /** The scan of `a` decides as much about `a + b`: a match found in `a` is
      the match of `a + b`, and a scan of `a` that ran out resumes, in
      `a + b`, from where it stopped. */
  lemma {:induction false} FindExtend<T(!new)>(a: seq<T>, b: seq<T>, delims: set<T>, width: nat, judge: seq<T> -> Verdict, c: nat)
    requires c <= |a| && 1 <= width && Advances(width, judge)
    ensures FindFrom(a, delims, width, judge, c).Found? ==>
              FindFrom(a + b, delims, width, judge, c) == FindFrom(a, delims, width, judge, c)
    ensures FindFrom(a, delims, width, judge, c).Short? ==>
              FindFrom(a + b, delims, width, judge, c) == FindFrom(a + b, delims, width, judge, FindFrom(a, delims, width, judge, c).at)
    ensures FindFrom(a, delims, width, judge, c).NoDelimiter? ==>
              FindFrom(a + b, delims, width, judge, c) == FindFrom(a + b, delims, width, judge, |a|)
    decreases |a| - c
  {
    StepExtend(a, b, delims, width, judge, c);
    match ScanStep(a, delims, width, judge, c)
    case Stop(_) =>
    case Continue(n) =>
      FindExtend(a, b, delims, width, judge, n);
  }

  /** One turn of `ReplaceAll` after a match. */
  lemma ReplaceAllStep<T(!new)>(h: seq<T>, delims: set<T>, width: nat, judge: seq<T> -> Verdict, replacement: seq<T>, s: nat, e: nat)
    requires 1 <= width && Advances(width, judge)
    requires FindFrom(h, delims, width, judge, 0) == Found(s, e)
    ensures s <= e <= |h|
    ensures ReplaceAll(h, delims, width, judge, replacement)
              == h[..s] + replacement + ReplaceAll(h[e..], delims, width, judge, replacement)
  {
  }

  /** The sequence arithmetic behind `ReplaceAllShiftedFound`, kept apart
      from any unfolding of the scan. */
  lemma RegroupShifted<T>(x: seq<T>, y: seq<T>, s: nat, replacement: seq<T>, rh: seq<T>, ry: seq<T>, tail: seq<T>)
    requires s <= |y|
    requires rh == (x + y)[..|x| + s] + replacement + tail
    requires ry == y[..s] + replacement + tail
    ensures rh == x + ry
  {
    assert (x + y)[..|x| + s] == x + y[..s];
  }

  lemma ReplaceAllShiftedFound<T(!new)>(x: seq<T>, y: seq<T>, delims: set<T>, width: nat, judge: seq<T> -> Verdict, replacement: seq<T>, s: nat, e: nat)
    requires 1 <= width && Advances(width, judge)
    requires FindFrom(y, delims, width, judge, 0) == Found(s, e)
    requires FindFrom(x + y, delims, width, judge, 0) == Found(|x| + s, |x| + e)
    ensures ReplaceAll(x + y, delims, width, judge, replacement) == x + ReplaceAll(y, delims, width, judge, replacement)
  {
    hide ReplaceAll, FindFrom;
    var h := x + y;
    ReplaceAllStep(y, delims, width, judge, replacement, s, e);
    ReplaceAllStep(h, delims, width, judge, replacement, |x| + s, |x| + e);
    assert h[|x| + e..] == y[e..];
    RegroupShifted(x, y, s, replacement, ReplaceAll(h, delims, width, judge, replacement),
      ReplaceAll(y, delims, width, judge, replacement), ReplaceAll(y[e..], delims, width, judge, replacement));
  }

  /** Replacing in `x + y` emits `x` unchanged when the scan of `x + y` is
      the scan of `y`, shifted. */
  lemma ReplaceAllShifted<T(!new)>(x: seq<T>, y: seq<T>, delims: set<T>, width: nat, judge: seq<T> -> Verdict, replacement: seq<T>)
    requires 1 <= width && Advances(width, judge)
    requires FindFrom(x + y, delims, width, judge, 0) == ShiftHit(FindFrom(y, delims, width, judge, 0), |x|)
    ensures ReplaceAll(x + y, delims, width, judge, replacement) == x + ReplaceAll(y, delims, width, judge, replacement)
  {
    var r := FindFrom(y, delims, width, judge, 0);
    if r.Found? {
      ReplaceAllShiftedFound(x, y, delims, width, judge, replacement, r.start, r.end);
    }
  }

  /** A match found in a prefix `a` is replaced whatever follows it. */
  lemma ReplaceAllAfterMatch<T(!new)>(a: seq<T>, b: seq<T>, delims: set<T>, width: nat, judge: seq<T> -> Verdict, replacement: seq<T>)
    requires 1 <= width && Advances(width, judge)
    requires FindFrom(a, delims, width, judge, 0).Found?
    ensures var r := FindFrom(a, delims, width, judge, 0);
            ReplaceAll(a + b, delims, width, judge, replacement)
              == a[..r.start] + replacement + ReplaceAll(a[r.end..] + b, delims, width, judge, replacement)
  {
    var r := FindFrom(a, delims, width, judge, 0);
    FindExtend(a, b, delims, width, judge, 0);
    assert (a + b)[..r.start] == a[..r.start];
    assert (a + b)[r.end..] == a[r.end..] + b;
  }

  /** Where the scan of a prefix `a` gave up at `p` without a match (a short
      candidate at `p`, or no delimiter at all and `p == |a|`), the elements
      before `p` are final: they pass through whatever follows. */
  lemma ReplaceAllAfterMiss<T(!new)>(a: seq<T>, b: seq<T>, delims: set<T>, width: nat, judge: seq<T> -> Verdict, replacement: seq<T>, p: nat)
    requires 1 <= width && Advances(width, judge)
    requires FindFrom(a, delims, width, judge, 0) == Short(p)
             || (FindFrom(a, delims, width, judge, 0).NoDelimiter? && p == |a|)
    ensures p <= |a|
    ensures ReplaceAll(a + b, delims, width, judge, replacement)
              == a[..p] + ReplaceAll(a[p..] + b, delims, width, judge, replacement)
  {
    FindExtend(a, b, delims, width, judge, 0);
    var x, y := a[..p], a[p..] + b;
    assert a + b == x + y;
    FindShift(x, y, delims, width, judge, |x|);
    ReplaceAllShifted(x, y, delims, width, judge, replacement);
  }

  /** A text shorter than the window passes through unchanged. */
  lemma ReplaceAllShort<T(!new)>(h: seq<T>, delims: set<T>, width: nat, judge: seq<T> -> Verdict, replacement: seq<T>)
    requires 1 <= width && Advances(width, judge) && |h| < width
    ensures ReplaceAll(h, delims, width, judge, replacement) == h
  {
  }

  /** Without an occurrence at or after `c` the scan cannot report a match. */
  lemma NoOccurrenceNoMatch<T(!new)>(h: seq<T>, delims: set<T>, width: nat, judge: seq<T> -> Verdict, c: nat)
    requires c <= |h| && 1 <= width && Advances(width, judge)
    requires forall p :: c <= p ==> !Occurs(h, delims, width, judge, p)
    ensures !FindFrom(h, delims, width, judge, c).Found?
  {
    FindFromSound(h, delims, width, judge, c);
  }

  /** An input without any occurrence is emitted unchanged. */
  lemma ReplaceAllIdentity<T(!new)>(h: seq<T>, delims: set<T>, width: nat, judge: seq<T> -> Verdict, replacement: seq<T>)
    requires 1 <= width && Advances(width, judge)
    requires forall p :: !Occurs(h, delims, width, judge, p)
    ensures ReplaceAll(h, delims, width, judge, replacement) == h
  {
    NoOccurrenceNoMatch(h, delims, width, judge, 0);
  }

  /** With a judge that restarts after the candidate's first element the scan
      finds the leftmost occurrence at or after `c`, and reports no match only
      when there is none. */
  lemma {:induction false} RestartingFindsLeftmost<T(!new)>(h: seq<T>, delims: set<T>, width: nat, judge: seq<T> -> Verdict, c: nat)
    requires c <= |h| && 1 <= width && Advances(width, judge) && Restarts(width, judge)
    ensures var r := FindFrom(h, delims, width, judge, c);
            forall p :: c <= p && (r.Found? ==> p < r.start) ==> !Occurs(h, delims, width, judge, p)
    decreases |h| - c
  {
    NextDelimiterIsFirst(h, delims, c);
    match ScanStep(h, delims, width, judge, c)
    case Stop(_) =>
    case Continue(n) =>
      RestartingFindsLeftmost(h, delims, width, judge, n);
  }
}
