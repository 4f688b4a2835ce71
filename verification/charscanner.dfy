/**
 The char-level scanner: `FindCandidate`, `CompareSequence` and `Compare`,
 written three times over in `UsingStreaming`, `UsingStreamReader` and
 `UsingPipes` with identical bodies.  It is the cursor loop of `Scanner` with
 a window as wide as `oldValue` and a judge that compares the window with
 `oldValue` character by character, ignoring case.

 `CompareSequence` reads with `SequenceReader.TryRead`, which consumes the
 character it returns, so after a failed comparison the reader rests one past
 the mismatching character, and under `WhereLeft` the scan goes on from there.
 */
module CharScanner {
  import opened Common
  import opened Scanner

  /** `Compare`: two characters are equal once both are upper-cased. */
  predicate Compare(casing: Casing, candidate: char, original: char) {
    casing.toUpper(original) == casing.toUpper(candidate)
  }

  /** `Compare` is an equivalence, whatever the case mapping. */
  lemma CompareIsEquivalence(casing: Casing, a: char, b: char, c: char)
    ensures Compare(casing, a, a)
    ensures Compare(casing, a, b) <==> Compare(casing, b, a)
    ensures Compare(casing, a, b) && Compare(casing, b, c) ==> Compare(casing, a, c)
  {
  }

  /** `m` spells `oldValue`, ignoring case. */
  predicate Matches(casing: Casing, m: seq<char>, oldValue: seq<char>) {
    |m| == |oldValue| && forall j :: 0 <= j < |m| ==> Compare(casing, m[j], oldValue[j])
  }

  /** How `CompareSequence` ended: every character matched; the character at
      `at` did not (and was consumed); or the haystack ran out first. */
  datatype Comparison = Matched | Mismatch(at: nat) | Exhausted

  /** `CompareSequence` with the reader at `w[0]`, from the `i`-th character
      of `oldValue` on. */
  function CompareSequence(casing: Casing, w: seq<char>, oldValue: seq<char>, i: nat): (r: Comparison)
    requires i <= |oldValue| && i <= |w|
    ensures r.Matched? <==> |oldValue| <= |w| && forall j :: i <= j < |oldValue| ==> Compare(casing, w[j], oldValue[j])
    ensures r.Mismatch? ==> i <= r.at < |oldValue| && r.at < |w| && !Compare(casing, w[r.at], oldValue[r.at])
                            && forall j :: i <= j < r.at ==> Compare(casing, w[j], oldValue[j])
    ensures r.Exhausted? ==> |w| < |oldValue| && forall j :: i <= j < |w| ==> Compare(casing, w[j], oldValue[j])
    decreases |oldValue| - i
  {
    if i == |oldValue| then Matched
    else if i == |w| then Exhausted
    else if !Compare(casing, w[i], oldValue[i]) then Mismatch(i)
    else CompareSequence(casing, w, oldValue, i + 1)
  }

  /** The comparison at a delimiter, as a judge of the `Scanner` loop.  On a
      mismatch at `j` the repository's reader is left at `j + 1`. */
  function Judge(casing: Casing, oldValue: seq<char>, policy: Resume): seq<char> -> Verdict {
    w =>
      match CompareSequence(casing, w, oldValue, 0)
      case Matched => Accept
      case Mismatch(j) => Reject(if policy == WhereLeft then j + 1 else 1)
      case Exhausted => Reject(1)
  }

  /** The judge accepts exactly the windows that spell `oldValue`. */
  lemma JudgeAccepts(casing: Casing, oldValue: seq<char>, policy: Resume, w: seq<char>)
    requires |w| == |oldValue|
    ensures Judge(casing, oldValue, policy)(w) == Accept <==> Matches(casing, w, oldValue)
  {
  }

  /** Every rejection moves the reader forward and stays inside the window;
      the corrected policy always restarts after the candidate's first
      character. */
  lemma JudgeAdvances(casing: Casing, oldValue: seq<char>, policy: Resume)
    requires 1 <= |oldValue|
    ensures Advances(|oldValue|, Judge(casing, oldValue, policy))
    ensures policy == AfterCandidateStart ==> Restarts(|oldValue|, Judge(casing, oldValue, policy))
  {
  }

  /** `FindCandidate`'s outputs: whether a match was found, the part of the
      haystack before the match (or before where the scan stopped), and the
      position the rest of the haystack starts at. */
  datatype Candidate = Candidate(found: bool, before: seq<char>, position: nat)

  /** An occurrence of `oldValue` at `p` that the scan can see: led by a
      delimiter and spelling `oldValue`. */
  predicate OccursAt(casing: Casing, h: seq<char>, oldValue: seq<char>, delims: set<char>, p: nat) {
    p < |h| && p + |oldValue| <= |h| && h[p] in delims && Matches(casing, h[p..p + |oldValue|], oldValue)
  }

  /** What every return of `FindCandidate` promises about its outputs:
      `before` is a prefix of the haystack and `position` is where the rest
      starts; a match spells `oldValue` at a delimiter right after `before`;
      otherwise `before` ends at `position`, which is either a delimiter too
      close to the end or the end itself; and without any delimiter the
      whole haystack is `before`. */
  ghost predicate Reports(casing: Casing, haystack: seq<char>, oldValue: seq<char>, delims: set<char>, r: Candidate) {
    && r.position <= |haystack| && |r.before| <= r.position && r.before == haystack[..|r.before|]
    && (r.found ==> |r.before| + |oldValue| == r.position && OccursAt(casing, haystack, oldValue, delims, |r.before|))
    && (!r.found ==> |r.before| == r.position)
    && (!r.found && r.position < |haystack| ==> haystack[r.position] in delims && |haystack| - r.position < |oldValue|)
    && ((forall i :: 0 <= i < |haystack| ==> haystack[i] !in delims) ==> !r.found && r.position == |haystack|)
  }

  /** `FindCandidate` for an empty `oldValue`: an empty match at the first
      delimiter. */
  function EmptyCandidate(haystack: seq<char>, delims: set<char>): Candidate {
    match NextDelimiter(haystack, delims, 0)
    case None => Candidate(false, haystack, |haystack|)
    case Some(d) => Candidate(true, haystack[..d], d)
  }

  lemma EmptyCandidateReports(casing: Casing, haystack: seq<char>, delims: set<char>)
    ensures Reports(casing, haystack, [], delims, EmptyCandidate(haystack, delims))
    ensures var c := EmptyCandidate(haystack, delims);
            && (c.found <==> exists i :: 0 <= i < |haystack| && haystack[i] in delims)
            && forall i :: 0 <= i < |c.before| ==> haystack[i] !in delims
  {
    NextDelimiterIsFirst(haystack, delims, 0);
  }

  /** `FindCandidate` for a non-empty `oldValue`: the scan loop, read back
      into `before` and `position`. */
  function ScanCandidate(casing: Casing, haystack: seq<char>, oldValue: seq<char>, delims: set<char>, policy: Resume): Candidate
    requires 1 <= |oldValue|
  {
    JudgeAdvances(casing, oldValue, policy);
    match FindFrom(haystack, delims, |oldValue|, Judge(casing, oldValue, policy), 0)
    case Found(s, e) => Candidate(true, haystack[..s], e)
    case Short(d) => Candidate(false, haystack[..d], d)
    case NoDelimiter => Candidate(false, haystack, |haystack|)
  }

  lemma ScanCandidateReports(casing: Casing, haystack: seq<char>, oldValue: seq<char>, delims: set<char>, policy: Resume)
    requires 1 <= |oldValue|
    ensures Reports(casing, haystack, oldValue, delims, ScanCandidate(casing, haystack, oldValue, delims, policy))
  {
    var judge := Judge(casing, oldValue, policy);
    JudgeAdvances(casing, oldValue, policy);
    FindFromSound(haystack, delims, |oldValue|, judge, 0);
    hide FindFrom, CompareSequence, Judge, Reports;
    var c := ScanCandidate(casing, haystack, oldValue, delims, policy);
    match FindFrom(haystack, delims, |oldValue|, judge, 0)
    case Found(s, e) =>
      assert c == Candidate(true, haystack[..s], e);
      JudgeAccepts(casing, oldValue, policy, haystack[s..e]);
      FoundCandidateReports(casing, haystack, oldValue, delims, s);
    case Short(d) =>
      assert c == Candidate(false, haystack[..d], d);
      ShortCandidateReports(casing, haystack, oldValue, delims, d);
    case NoDelimiter =>
      assert c == Candidate(false, haystack, |haystack|);
  }

  lemma FoundCandidateReports(casing: Casing, haystack: seq<char>, oldValue: seq<char>, delims: set<char>, s: nat)
    requires OccursAt(casing, haystack, oldValue, delims, s)
    ensures Reports(casing, haystack, oldValue, delims, Candidate(true, haystack[..s], s + |oldValue|))
  {
  }

  lemma ShortCandidateReports(casing: Casing, haystack: seq<char>, oldValue: seq<char>, delims: set<char>, d: nat)
    requires d < |haystack| && haystack[d] in delims && |haystack| - d < |oldValue|
    ensures Reports(casing, haystack, oldValue, delims, Candidate(false, haystack[..d], d))
  {
  }

  /** `FindCandidate`.  An empty `oldValue` matches, empty, at the first
      delimiter (the drivers never pass one: they fail on `oldValue[0]`). */
  function FindCandidate(casing: Casing, haystack: seq<char>, oldValue: seq<char>, delims: set<char>, policy: Resume): (r: Candidate)
    ensures r.position <= |haystack| && |r.before| <= r.position && r.before == haystack[..|r.before|]
    ensures haystack == r.before + haystack[|r.before|..r.position] + haystack[r.position..]
    ensures r.found ==> |r.before| + |oldValue| == r.position && OccursAt(casing, haystack, oldValue, delims, |r.before|)
    ensures !r.found ==> |r.before| == r.position
    ensures !r.found && r.position < |haystack| ==> haystack[r.position] in delims && |haystack| - r.position < |oldValue|
    ensures (forall i :: 0 <= i < |haystack| ==> haystack[i] !in delims) ==> !r.found && r.position == |haystack|
    ensures |oldValue| == 0 ==> (r.found <==> exists i :: 0 <= i < |haystack| && haystack[i] in delims)
    ensures |oldValue| == 0 ==> forall i :: 0 <= i < |r.before| ==> haystack[i] !in delims
  {
    if |oldValue| == 0 then
      EmptyCandidateReports(casing, haystack, delims);
      EmptyCandidate(haystack, delims)
    else
      ScanCandidateReports(casing, haystack, oldValue, delims, policy);
      ScanCandidate(casing, haystack, oldValue, delims, policy)
  }

  /** Under the corrected policy the match found is the leftmost occurrence,
      and nothing is found only when `oldValue` does not occur. */
  lemma {:induction false} CorrectedFindsLeftmost(casing: Casing, haystack: seq<char>, oldValue: seq<char>, delims: set<char>)
    requires 1 <= |oldValue|
    ensures var r := FindCandidate(casing, haystack, oldValue, delims, AfterCandidateStart);
            forall p: nat :: (r.found ==> p < |r.before|) ==> !OccursAt(casing, haystack, oldValue, delims, p)
  {
    var judge := Judge(casing, oldValue, AfterCandidateStart);
    JudgeAdvances(casing, oldValue, AfterCandidateStart);
    RestartingFindsLeftmost(haystack, delims, |oldValue|, judge, 0);
    var r := FindCandidate(casing, haystack, oldValue, delims, AfterCandidateStart);
    forall p: nat | r.found ==> p < |r.before|
      ensures !OccursAt(casing, haystack, oldValue, delims, p)
    {
      if OccursAt(casing, haystack, oldValue, delims, p) {
        JudgeAccepts(casing, oldValue, AfterCandidateStart, haystack[p..p + |oldValue|]);
        assert Occurs(haystack, delims, |oldValue|, judge, p);
      }
    }
  }

  /** Every character that `Compare` equates with `oldValue[0]` is a
      delimiter, so no occurrence can begin outside the delimiters. */
  predicate CoversFirst(casing: Casing, oldValue: seq<char>, delims: set<char>)
    requires 1 <= |oldValue|
  {
    forall c :: Compare(casing, c, oldValue[0]) ==> c in delims
  }

  /** The window of `h` at `p` matches `oldValue`, ignoring case, whatever
      character it begins with. */
  predicate MatchAt(casing: Casing, h: seq<char>, oldValue: seq<char>, p: nat) {
    p + |oldValue| <= |h| && Matches(casing, h[p..p + |oldValue|], oldValue)
  }

  /** Under the corrected policy, with delimiters that cover `oldValue[0]`
      in every case, the match found is the leftmost window that matches
      `oldValue`, and nothing is found only when no window does. */
  lemma CorrectedFindsEveryMatch(casing: Casing, haystack: seq<char>, oldValue: seq<char>, delims: set<char>)
    requires 1 <= |oldValue| && CoversFirst(casing, oldValue, delims)
    ensures var r := FindCandidate(casing, haystack, oldValue, delims, AfterCandidateStart);
            forall p: nat :: (r.found ==> p < |r.before|) ==> !MatchAt(casing, haystack, oldValue, p)
  {
    CorrectedFindsLeftmost(casing, haystack, oldValue, delims);
    var r := FindCandidate(casing, haystack, oldValue, delims, AfterCandidateStart);
    forall p: nat | r.found ==> p < |r.before|
      ensures !MatchAt(casing, haystack, oldValue, p)
    {
      if MatchAt(casing, haystack, oldValue, p) {
        var w := haystack[p..p + |oldValue|];
        assert w[0] == haystack[p] && Compare(casing, w[0], oldValue[0]);
        assert OccursAt(casing, haystack, oldValue, delims, p);
      }
    }
  }
}
