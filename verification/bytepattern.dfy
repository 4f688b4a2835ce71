/**
 `Pattern` and `CharByteMap` (Pattern.cs): a byte scanner that encodes every
 character of the term on its own, upper-cased and lower-cased, and accepts
 at each character either encoding, so the two cases may differ in length.

 The scan looks for a delimiter at which the first character's encoding
 begins, stops short of a candidate when fewer than `MaxLength` bytes remain
 and more input is to come, and otherwise compares character by character.
 `SequenceReader.IsNext(bytes, true)` moves the reader only when the bytes
 match, so a failed comparison leaves the reader at the start of the
 character that did not match, and the search goes on from there.
 */
module BytePattern {
  import opened Common
  import opened Scanner

  /** `CharByteMap`: one character of the term encoded upper-cased and
      lower-cased. */
  datatype CharByteMap = CharByteMap(upper: seq<byte>, lower: seq<byte>)

  /** The constructor of `CharByteMap`. */
  function MapOf(casing: Casing, encode: seq<char> -> seq<byte>, c: char): CharByteMap {
    CharByteMap(encode([casing.toUpper(c)]), encode([casing.toLower(c)]))
  }

  /** `SequenceReader.IsNext(next)` with the reader at `at`: the bytes from
      `at` on begin with `next`. */
  predicate IsNext(h: seq<byte>, at: nat, next: seq<byte>)
    requires at <= |h|
  {
    at + |next| <= |h| && h[at..at + |next|] == next
  }

  /** `CharByteMap.IsNext(reader, true)`: the reader moves past the
      upper-cased encoding if it is next, else past the lower-cased one if
      that is next, and stays put otherwise. */
  function AdvancePast(m: CharByteMap, h: seq<byte>, at: nat): (r: Option<nat>)
    requires at <= |h|
    ensures r.None? <==> !IsNext(h, at, m.upper) && !IsNext(h, at, m.lower)
    ensures r.Some? ==> at <= r.value <= |h| && (h[at..r.value] == m.upper || h[at..r.value] == m.lower)
  {
    if IsNext(h, at, m.upper) then Some(at + |m.upper|)
    else if IsNext(h, at, m.lower) then Some(at + |m.lower|)
    else None
  }

  /** The `Pattern` record: one map per character of the term. */
  datatype Pattern = Pattern(bytes: seq<CharByteMap>)

  /** A pattern the constructor returns: a first character both of whose
      encodings have a first byte. */
  predicate WellFormed(p: Pattern) {
    1 <= |p.bytes| && 1 <= |p.bytes[0].lower| && 1 <= |p.bytes[0].upper|
  }

  /** `Delimiters`: the first byte of each encoding of the first character. */
  function Delimiters(p: Pattern): (d: set<byte>)
    requires WellFormed(p)
    ensures forall b :: b in d <==> b == p.bytes[0].lower[0] || b == p.bytes[0].upper[0]
  {
    {p.bytes[0].lower[0], p.bytes[0].upper[0]}
  }

  /** The longer of a character's two encodings. */
  function Widest(m: CharByteMap): nat {
    Max(|m.lower|, |m.upper|)
  }

  /** The sum of `Widest` over `maps` (`Bytes.Aggregate`). */
  function SumWidest(maps: seq<CharByteMap>): nat
    decreases |maps|
  {
    if |maps| == 0 then 0 else Widest(maps[0]) + SumWidest(maps[1..])
  }

  /** `MaxLength`. */
  function MaxLength(p: Pattern): nat {
    SumWidest(p.bytes)
  }

  /** The constructor: a map per character of `value`.  Reading the
      delimiters fails on an empty term and on a first character with an
      empty encoding. */
  function NewPattern(casing: Casing, encode: seq<char> -> seq<byte>, value: seq<char>): (r: Result<Pattern>)
    ensures r.Failure? <==> |value| == 0 || |MapOf(casing, encode, value[0]).lower| == 0
                            || |MapOf(casing, encode, value[0]).upper| == 0
    ensures r.Failure? ==> r.error == IndexOutOfRange
    ensures r.Success? ==> WellFormed(r.value) && |r.value.bytes| == |value|
                           && forall i :: 0 <= i < |value| ==> r.value.bytes[i] == MapOf(casing, encode, value[i])
  {
    var bytes := seq(|value|, i requires 0 <= i < |value| => MapOf(casing, encode, value[i]));
    if |bytes| == 0 || |bytes[0].lower| == 0 || |bytes[0].upper| == 0 then Failure(IndexOutOfRange)
    else Success(Pattern(bytes))
  }

  /** `m` spells the characters of `maps` one after another, each in its
      upper-cased or its lower-cased encoding. */
  predicate Spells(maps: seq<CharByteMap>, m: seq<byte>)
    decreases |maps|
  {
    if |maps| == 0 then m == []
    else (maps[0].upper <= m && Spells(maps[1..], m[|maps[0].upper|..]))
         || (maps[0].lower <= m && Spells(maps[1..], m[|maps[0].lower|..]))
  }

  /** A spelling is never longer than the sum of the widest encodings. */
  lemma {:induction false} SpellsBound(maps: seq<CharByteMap>, m: seq<byte>)
    requires Spells(maps, m)
    ensures |m| <= SumWidest(maps)
    decreases |maps|
  {
    if |maps| > 0 {
      if maps[0].upper <= m && Spells(maps[1..], m[|maps[0].upper|..]) {
        SpellsBound(maps[1..], m[|maps[0].upper|..]);
      } else {
        SpellsBound(maps[1..], m[|maps[0].lower|..]);
      }
    }
  }

  /** The first character of the pattern begins at `i`. */
  predicate Starts(p: Pattern, h: seq<byte>, i: nat)
    requires WellFormed(p) && i <= |h|
  {
    IsNext(h, i, p.bytes[0].upper) || IsNext(h, i, p.bytes[0].lower)
  }

  /** `TryAdvanceToPossibleSequence` from `c`: move to each delimiter in
      turn and stop at the first one where the first character begins. */
  function PossibleSequence(p: Pattern, h: seq<byte>, c: nat): (r: Option<nat>)
    requires WellFormed(p) && c <= |h|
    ensures r.Some? ==> c <= r.value < |h| && Starts(p, h, r.value)
    decreases |h| - c
  {
    match NextDelimiter(h, Delimiters(p), c)
    case None => None
    case Some(d) =>
      if Starts(p, h, d) then Some(d) else PossibleSequence(p, h, d + 1)
  }

  /** The first character can only begin at a delimiter. */
  lemma StartsAtDelimiter(p: Pattern, h: seq<byte>, i: nat)
    requires WellFormed(p) && i <= |h| && Starts(p, h, i)
    ensures i < |h| && h[i] in Delimiters(p)
  {
    if IsNext(h, i, p.bytes[0].upper) {
      assert h[i] == h[i..i + |p.bytes[0].upper|][0];
    } else {
      assert h[i] == h[i..i + |p.bytes[0].lower|][0];
    }
  }

  /** The first character begins nowhere in a stretch without delimiters. */
  lemma NoStartWithoutDelimiter(p: Pattern, h: seq<byte>, c: nat, e: nat)
    requires WellFormed(p) && c <= e <= |h| + 1
    requires forall i :: c <= i < e && i < |h| ==> h[i] !in Delimiters(p)
    ensures forall i :: c <= i < e ==> !Starts(p, h, i)
  {
    forall i | c <= i < e ensures !Starts(p, h, i) {
      if Starts(p, h, i) { StartsAtDelimiter(p, h, i); }
    }
  }

  /** The position found is the first at or after `c` where the first
      character begins; none is found only when there is none. */
  lemma {:induction false} PossibleSequenceIsFirst(p: Pattern, h: seq<byte>, c: nat)
    requires WellFormed(p) && c <= |h|
    ensures var r := PossibleSequence(p, h, c);
            && (r.Some? ==> forall i :: c <= i < r.value ==> !Starts(p, h, i))
            && (r.None? ==> forall i :: c <= i <= |h| ==> !Starts(p, h, i))
    decreases |h| - c
  {
    NextDelimiterIsFirst(h, Delimiters(p), c);
    match NextDelimiter(h, Delimiters(p), c)
    case None =>
      assert PossibleSequence(p, h, c) == None;
      NoStartWithoutDelimiter(p, h, c, |h| + 1);
    case Some(d) =>
      NoStartWithoutDelimiter(p, h, c, d);
      if Starts(p, h, d) {
        assert PossibleSequence(p, h, c) == Some(d);
      } else {
        assert PossibleSequence(p, h, c) == PossibleSequence(p, h, d + 1);
        PossibleSequenceIsFirst(p, h, d + 1);
      }
  }

  /** How `CompareSequence` ended: the reader past the whole term at `end`,
      or resting at `at`, the start of the `index`-th character, whose
      encodings are both absent there. */
  datatype Comparison = Matched(end: nat) | Mismatch(index: nat, at: nat)

  /** `CompareSequence` from the `k`-th character on, with the reader at
      `at`. */
  function CompareSequence(p: Pattern, h: seq<byte>, k: nat, at: nat): (r: Comparison)
    requires k <= |p.bytes| && at <= |h|
    ensures r.Matched? ==> at <= r.end <= |h|
    ensures r.Mismatch? ==> k <= r.index < |p.bytes| && at <= r.at <= |h|
                            && AdvancePast(p.bytes[r.index], h, r.at).None?
    decreases |p.bytes| - k
  {
    if k == |p.bytes| then Matched(at)
    else
      match AdvancePast(p.bytes[k], h, at)
      case None => Mismatch(k, at)
      case Some(n) => CompareSequence(p, h, k + 1, n)
  }

  /** Where the first character begins in `h` it begins the suffix there. */
  lemma StartsSuffix(p: Pattern, h: seq<byte>, d: nat)
    requires WellFormed(p) && d <= |h| && Starts(p, h, d)
    ensures Starts(p, h[d..], 0)
  {
    var u, l := p.bytes[0].upper, p.bytes[0].lower;
    if IsNext(h, d, u) {
      assert h[d..][0..|u|] == h[d..d + |u|];
    } else {
      assert h[d..][0..|l|] == h[d..d + |l|];
    }
  }

  /** The empty term is spelled by nothing. */
  lemma SpellsNil()
    ensures Spells([], [])
  {
  }

  /** One character's encoding followed by a spelling of the rest. */
  lemma SpellsCons(maps: seq<CharByteMap>, x: seq<byte>, y: seq<byte>)
    requires 1 <= |maps| && (x == maps[0].upper || x == maps[0].lower)
    requires Spells(maps[1..], y)
    ensures Spells(maps, x + y)
  {
    assert x <= x + y && (x + y)[|x|..] == y;
  }

  /** What `CompareSequence` consumed spells the characters it got through:
      the whole term on a match, the characters before the failing one on a
      mismatch. */
  lemma {:induction false} CompareSequenceSpells(p: Pattern, h: seq<byte>, k: nat, at: nat)
    requires k <= |p.bytes| && at <= |h|
    ensures var r := CompareSequence(p, h, k, at);
            && (r.Matched? ==> Spells(p.bytes[k..], h[at..r.end]))
            && (r.Mismatch? ==> Spells(p.bytes[k..r.index], h[at..r.at]))
    decreases |p.bytes| - k
  {
    SpellsNil();
    if k == |p.bytes| {
      assert p.bytes[k..] == [] && h[at..at] == [];
    } else {
      var m := p.bytes[k];
      match AdvancePast(m, h, at)
      case None =>
        assert p.bytes[k..k] == [] && h[at..at] == [];
      case Some(n) =>
        assert CompareSequence(p, h, k, at) == CompareSequence(p, h, k + 1, n);
        hide Spells, CompareSequence, AdvancePast;
        CompareSequenceSpells(p, h, k + 1, n);
        var r := CompareSequence(p, h, k + 1, n);
        if r.Matched? {
          assert p.bytes[k..|p.bytes|] == p.bytes[k..] && p.bytes[k + 1..|p.bytes|] == p.bytes[k + 1..];
          SpellsExtend(p.bytes, k, |p.bytes|, h, at, n, r.end);
        } else {
          SpellsExtend(p.bytes, k, r.index, h, at, n, r.at);
        }
    }
  }

  /** A spelling of characters `k + 1` to `j` preceded by an encoding of
      character `k` spells characters `k` to `j`. */
  lemma SpellsExtend(maps: seq<CharByteMap>, k: nat, j: nat, h: seq<byte>, at: nat, n: nat, e: nat)
    requires k < j <= |maps| && at <= n <= e <= |h|
    requires h[at..n] == maps[k].upper || h[at..n] == maps[k].lower
    requires Spells(maps[k + 1..j], h[n..e])
    ensures Spells(maps[k..j], h[at..e])
  {
    assert maps[k..j][1..] == maps[k + 1..j];
    assert h[at..e] == h[at..n] + h[n..e];
    SpellsCons(maps[k..j], h[at..n], h[n..e]);
  }

  /** At a position where the first character begins the comparison gets
      past it, so a failed comparison always moves the reader on. */
  lemma CompareSequenceAdvances(p: Pattern, h: seq<byte>, d: nat)
    requires WellFormed(p) && d <= |h| && Starts(p, h, d)
    ensures var r := CompareSequence(p, h, 0, d);
            r.Mismatch? ==> d < r.at
  {
    var n := AdvancePast(p.bytes[0], h, d).value;
    assert d < n;
    assert CompareSequence(p, h, 0, d) == CompareSequence(p, h, 1, n);
  }

  /** One `FindPattern` call's scan from the reader at `c`: a match at
      `[start, end)`, a candidate at `at` left for the next chunk, or no
      candidate at all. */
  function FindFromCursor(p: Pattern, policy: Resume, h: seq<byte>, isFinalRun: bool, c: nat): (r: Hit)
    requires WellFormed(p) && c <= |h|
    ensures r.Found? ==> c <= r.start <= r.end <= |h|
    ensures r.Short? ==> c <= r.at < |h|
    decreases |h| - c
  {
    match PossibleSequence(p, h, c)
    case None => NoDelimiter
    case Some(d) =>
      if !isFinalRun && |h| - d < MaxLength(p) then Short(d)
      else
        CompareSequenceAdvances(p, h, d);
        match CompareSequence(p, h, 0, d)
        case Matched(e) => Found(d, e)
        case Mismatch(_, m) => FindFromCursor(p, policy, h, isFinalRun, if policy == WhereLeft then m else d + 1)
  }

  /** What each way of ending the scan means. */
  lemma {:induction false} FindFromCursorSound(p: Pattern, policy: Resume, h: seq<byte>, isFinalRun: bool, c: nat)
    requires WellFormed(p) && c <= |h|
    ensures var r := FindFromCursor(p, policy, h, isFinalRun, c);
            && (r.Found? ==> Starts(p, h, r.start) && Spells(p.bytes, h[r.start..r.end]))
            && (r.Short? ==> !isFinalRun && Starts(p, h, r.at) && |h| - r.at < MaxLength(p))
            && ((forall i :: c <= i <= |h| ==> !Starts(p, h, i)) ==> r.NoDelimiter?)
    decreases |h| - c
  {
    PossibleSequenceIsFirst(p, h, c);
    match PossibleSequence(p, h, c)
    case None =>
    case Some(d) =>
      if isFinalRun || MaxLength(p) <= |h| - d {
        CompareSequenceAdvances(p, h, d);
        CompareSequenceSpells(p, h, 0, d);
        assert p.bytes[0..] == p.bytes;
        match CompareSequence(p, h, 0, d)
        case Matched(e) =>
        case Mismatch(_, m) =>
          FindFromCursorSound(p, policy, h, isFinalRun, if policy == WhereLeft then m else d + 1);
      }
  }

  /** `FindPattern`'s outcome: whether it found the term, the bytes it
      passed over (`inspected`), and what it leaves of the haystack. */
  datatype Scan = Scan(found: bool, inspected: seq<byte>, rest: seq<byte>)

  /** The scan read back into `inspected` and the new haystack. */
  function ScanPattern(p: Pattern, policy: Resume, h: seq<byte>, isFinalRun: bool): Scan
    requires WellFormed(p)
  {
    match FindFromCursor(p, policy, h, isFinalRun, 0)
    case Found(s, e) => Scan(true, h[..s], h[e..])
    case Short(d) => Scan(false, h[..d], h[d..])
    case NoDelimiter => Scan(false, h, [])
  }

  /** What every return of `FindPattern` promises: the old haystack is
      `inspected`, then on a match the term spelled character by character
      in either case (never longer than `MaxLength`), then the new haystack;
      a candidate is left over only when more input is to come and fewer
      than `MaxLength` bytes remain; and where the first character never
      begins, everything is inspected. */
  ghost predicate Reports(p: Pattern, h: seq<byte>, isFinalRun: bool, r: Scan)
    requires WellFormed(p)
  {
    var n, e := |r.inspected|, |h| - |r.rest|;
    && n <= e <= |h| && h == r.inspected + h[n..e] + r.rest
    && (r.found ==> Starts(p, h, n) && Spells(p.bytes, h[n..e]) && e - n <= MaxLength(p))
    && (!r.found ==> n == e)
    && (!r.found && r.rest != [] ==> !isFinalRun && Starts(p, r.rest, 0) && |r.rest| < MaxLength(p))
    && ((forall i :: 0 <= i <= |h| ==> !Starts(p, h, i)) ==> !r.found && r.inspected == h && r.rest == [])
  }

  lemma FoundReports(p: Pattern, h: seq<byte>, isFinalRun: bool, s: nat, e: nat)
    requires WellFormed(p) && s <= e <= |h| && Starts(p, h, s) && Spells(p.bytes, h[s..e])
    ensures Reports(p, h, isFinalRun, Scan(true, h[..s], h[e..]))
  {
    SpellsBound(p.bytes, h[s..e]);
    assert h == h[..s] + h[s..e] + h[e..];
  }

  lemma ShortReports(p: Pattern, h: seq<byte>, isFinalRun: bool, d: nat)
    requires WellFormed(p) && d < |h| && !isFinalRun && Starts(p, h, d) && |h| - d < MaxLength(p)
    ensures Reports(p, h, isFinalRun, Scan(false, h[..d], h[d..]))
  {
    assert h == h[..d] + h[d..d] + h[d..];
    StartsSuffix(p, h, d);
  }

  lemma ScanPatternReports(p: Pattern, policy: Resume, h: seq<byte>, isFinalRun: bool)
    requires WellFormed(p)
    ensures Reports(p, h, isFinalRun, ScanPattern(p, policy, h, isFinalRun))
  {
    FindFromCursorSound(p, policy, h, isFinalRun, 0);
    match FindFromCursor(p, policy, h, isFinalRun, 0)
    case Found(s, e) =>
      FoundReports(p, h, isFinalRun, s, e);
    case Short(d) =>
      ShortReports(p, h, isFinalRun, d);
    case NoDelimiter =>
      assert h == h + [] + [];
  }

  /** `FindPattern`. */
  function FindPattern(p: Pattern, policy: Resume, h: seq<byte>, isFinalRun: bool): (r: Scan)
    requires WellFormed(p)
    ensures Reports(p, h, isFinalRun, r)
  {
    ScanPatternReports(p, policy, h, isFinalRun);
    ScanPattern(p, policy, h, isFinalRun)
  }

  /** On the final run a miss consumes the whole haystack. */
  lemma FinalRunMissEmpties(p: Pattern, policy: Resume, h: seq<byte>)
    requires WellFormed(p)
    ensures !FindPattern(p, policy, h, true).found ==> FindPattern(p, policy, h, true).rest == []
  {
  }

  /** The term is found at `i`: `CompareSequence` gets through all of it
      from there. */
  predicate MatchesAt(p: Pattern, h: seq<byte>, i: nat)
    requires i <= |h|
  {
    CompareSequence(p, h, 0, i).Matched?
  }

  /** A match begins with the first character. */
  lemma MatchStarts(p: Pattern, h: seq<byte>, i: nat)
    requires WellFormed(p) && i <= |h| && MatchesAt(p, h, i)
    ensures Starts(p, h, i)
  {
  }

  /** No match begins at a position in `[lo, hi)`. */
  predicate NoMatchIn(p: Pattern, h: seq<byte>, lo: nat, hi: nat) {
    forall i :: lo <= i < hi && i <= |h| ==> !MatchesAt(p, h, i)
  }

  lemma NoMatchJoin(p: Pattern, h: seq<byte>, lo: nat, mid: nat, hi: nat)
    requires lo <= mid < hi && NoMatchIn(p, h, lo, mid) && NoMatchIn(p, h, mid + 1, hi)
    requires mid <= |h| ==> !MatchesAt(p, h, mid)
    ensures NoMatchIn(p, h, lo, hi)
  {
  }

  /** No match begins before the position `TryAdvanceToPossibleSequence`
      stops at, or anywhere when it finds none. */
  lemma NoMatchBeforeCandidate(p: Pattern, h: seq<byte>, c: nat)
    requires WellFormed(p) && c <= |h|
    ensures NoMatchIn(p, h, c, match PossibleSequence(p, h, c) case Some(d) => d case None => |h| + 1)
  {
    PossibleSequenceIsFirst(p, h, c);
    var n := PossibleSequence(p, h, c);
    forall i | c <= i <= |h| && (n.Some? ==> i < n.value)
      ensures !MatchesAt(p, h, i)
    {
      if MatchesAt(p, h, i) {
        MatchStarts(p, h, i);
      }
    }
  }

  /** Neither encoding of the character is a proper prefix of the other, so
      the reader can never have both next with different lengths.  An
      encoder whose code words form a prefix code, as UTF-8's do, gives such
      maps. */
  predicate PrefixFreeMap(m: CharByteMap) {
    (m.upper <= m.lower || m.lower <= m.upper) ==> m.upper == m.lower
  }

  /** Every character of the pattern has prefix-free encodings. */
  predicate PrefixFree(p: Pattern) {
    forall k :: 0 <= k < |p.bytes| ==> PrefixFreeMap(p.bytes[k])
  }

  /** With prefix-free encodings the greedy comparison follows any spelling:
      if `h[at..e]` spells characters `k` on, `CompareSequence` from `at`
      gets through them and stops at `e`. */
  lemma {:induction false} SpelledCompares(p: Pattern, h: seq<byte>, k: nat, at: nat, e: nat)
    requires PrefixFree(p) && k <= |p.bytes| && at <= e <= |h|
    requires Spells(p.bytes[k..], h[at..e])
    ensures CompareSequence(p, h, k, at) == Matched(e)
    decreases |p.bytes| - k
  {
    if k == |p.bytes| {
      assert p.bytes[k..] == [];
      assert |h[at..e]| == 0;
    } else {
      hide Spells, PrefixFree, CompareSequence;
      var n := SpelledStep(p, h, k, at, e);
      SpelledCompares(p, h, k + 1, n, e);
    }
  }

  /** One step of `SpelledCompares`: the comparison gets past character `k`
      at the end of the encoding the spelling begins with. */
  lemma SpelledStep(p: Pattern, h: seq<byte>, k: nat, at: nat, e: nat) returns (n: nat)
    requires PrefixFree(p) && k < |p.bytes| && at <= e <= |h|
    requires Spells(p.bytes[k..], h[at..e])
    ensures at <= n <= e && Spells(p.bytes[k + 1..], h[n..e])
    ensures CompareSequence(p, h, k, at) == CompareSequence(p, h, k + 1, n)
  {
    var m, w := p.bytes[k], h[at..e];
    assert PrefixFreeMap(m);
    assert p.bytes[k..][0] == m && p.bytes[k..][1..] == p.bytes[k + 1..];
    hide Spells, PrefixFree, CompareSequence, AdvancePast, IsNext;
    var x := SpellsHead(p.bytes[k..], w);
    n := at + |x|;
    NextInSlice(h, at, e, x);
    AdvancesByNext(m, h, at, x);
    CompareStep(p, h, k, at, n);
  }

  /** Getting past character `k` leaves the rest of the comparison to do. */
  lemma CompareStep(p: Pattern, h: seq<byte>, k: nat, at: nat, n: nat)
    requires k < |p.bytes| && at <= |h| && AdvancePast(p.bytes[k], h, at) == Some(n)
    ensures n <= |h| && CompareSequence(p, h, k, at) == CompareSequence(p, h, k + 1, n)
  {
  }

  /** A spelling begins with an encoding of the first character and goes on
      with a spelling of the rest. */
  lemma SpellsHead(maps: seq<CharByteMap>, w: seq<byte>) returns (x: seq<byte>)
    requires 1 <= |maps| && Spells(maps, w)
    ensures (x == maps[0].upper || x == maps[0].lower) && x <= w && Spells(maps[1..], w[|x|..])
  {
    x := if maps[0].upper <= w && Spells(maps[1..], w[|maps[0].upper|..]) then maps[0].upper else maps[0].lower;
  }

  /** A prefix of `h[at..e]` is next at `at`, and what follows it is the
      rest of the slice. */
  lemma NextInSlice(h: seq<byte>, at: nat, e: nat, x: seq<byte>)
    requires at <= e <= |h| && x <= h[at..e]
    ensures IsNext(h, at, x) && h[at..e][|x|..] == h[at + |x|..e]
  {
    assert h[at..at + |x|] == h[at..e][..|x|];
  }

  /** With prefix-free encodings, whichever encoding is next is the one
      `AdvancePast` moves past. */
  lemma AdvancesByNext(m: CharByteMap, h: seq<byte>, at: nat, x: seq<byte>)
    requires PrefixFreeMap(m) && (x == m.upper || x == m.lower) && at <= |h| && IsNext(h, at, x)
    ensures AdvancePast(m, h, at) == Some(at + |x|)
  {
    var n := AdvancePast(m, h, at).value;
    var y := h[at..n];
    if |y| <= |x| {
      assert y == x[..|y|];
    }
  }

  /** With prefix-free encodings the term is found at `i` exactly when some
      bytes from `i` on spell it. */
  lemma MatchesAtIffSpelled(p: Pattern, h: seq<byte>, i: nat)
    requires PrefixFree(p) && i <= |h|
    ensures MatchesAt(p, h, i) <==> exists j :: i <= j <= |h| && Spells(p.bytes, h[i..j])
  {
    assert p.bytes[0..] == p.bytes;
    if MatchesAt(p, h, i) {
      CompareSequenceSpells(p, h, 0, i);
      var j := CompareSequence(p, h, 0, i).end;
      assert Spells(p.bytes, h[i..j]);
    }
    if j :| i <= j <= |h| && Spells(p.bytes, h[i..j]) {
      SpelledCompares(p, h, 0, i, j);
    }
  }

  /** No spelling of the term begins at a position in `[lo, hi)`. */
  ghost predicate NoSpellingIn(p: Pattern, h: seq<byte>, lo: nat, hi: nat) {
    forall i, j :: lo <= i < hi && i <= j <= |h| ==> !Spells(p.bytes, h[i..j])
  }

  /** With prefix-free encodings a stretch without a match holds no
      spelling either. */
  lemma NoMatchNoSpelling(p: Pattern, h: seq<byte>, lo: nat, hi: nat)
    requires PrefixFree(p) && NoMatchIn(p, h, lo, hi)
    ensures NoSpellingIn(p, h, lo, hi)
  {
    forall i, j | lo <= i < hi && i <= j <= |h|
      ensures !Spells(p.bytes, h[i..j])
    {
      MatchesAtIffSpelled(p, h, i);
    }
  }

  /** How far a scan got: where it found or left a candidate, or past the
      end when there was none. */
  function Reach(r: Hit, h: seq<byte>): nat {
    match r
    case Found(s, _) => s
    case Short(a) => a
    case NoDelimiter => |h| + 1
  }

  /** One step of the corrected scan from `c`: it stops at the candidate
      `TryAdvanceToPossibleSequence` finds, or that candidate holds no match
      and the scan goes on after its first byte. */
  lemma CursorStep(p: Pattern, h: seq<byte>, isFinalRun: bool, c: nat)
    requires WellFormed(p) && c <= |h|
    ensures var r := FindFromCursor(p, AfterCandidateStart, h, isFinalRun, c);
            match PossibleSequence(p, h, c)
            case None => r == NoDelimiter
            case Some(d) => Reach(r, h) == d || (d < |h| && r == FindFromCursor(p, AfterCandidateStart, h, isFinalRun, d + 1) && !MatchesAt(p, h, d))
  {
    match PossibleSequence(p, h, c)
    case None =>
    case Some(d) =>
      if isFinalRun || MaxLength(p) <= |h| - d {
        match CompareSequence(p, h, 0, d)
        case Matched(e) =>
        case Mismatch(_, m) =>
      }
  }

  /** Under the corrected policy no position the scan moves over holds a
      match, and with prefix-free encodings no spelling of the term. */
  lemma {:induction false} CursorFindsLeftmost(p: Pattern, h: seq<byte>, isFinalRun: bool, c: nat)
    requires WellFormed(p) && c <= |h|
    ensures NoMatchIn(p, h, c, Reach(FindFromCursor(p, AfterCandidateStart, h, isFinalRun, c), h))
    ensures PrefixFree(p) ==> NoSpellingIn(p, h, c, Reach(FindFromCursor(p, AfterCandidateStart, h, isFinalRun, c), h))
    decreases |h| - c
  {
    hide NoMatchIn, FindFromCursor, PossibleSequence, CompareSequence, MatchesAt;
    var r := FindFromCursor(p, AfterCandidateStart, h, isFinalRun, c);
    match PossibleSequence(p, h, c) {
    case None =>
      assert r == NoDelimiter by { CursorStep(p, h, isFinalRun, c); }
      NoMatchBeforeCandidate(p, h, c);
    case Some(d) =>
      assert NoMatchIn(p, h, c, d) by { NoMatchBeforeCandidate(p, h, c); }
      if Reach(r, h) != d {
        var r' := FindFromCursor(p, AfterCandidateStart, h, isFinalRun, d + 1);
        assert r == r' && d < |h| && !MatchesAt(p, h, d) by { CursorStep(p, h, isFinalRun, c); }
        assert d < Reach(r', h);
        CursorFindsLeftmost(p, h, isFinalRun, d + 1);
        NoMatchJoin(p, h, c, d, Reach(r', h));
      }
    }
    if PrefixFree(p) {
      NoMatchNoSpelling(p, h, c, Reach(r, h));
    }
  }

  /** Under the corrected policy nothing `FindPattern` reports as inspected
      holds a match: a match found is the leftmost one.  With prefix-free
      encodings nothing inspected begins a spelling of the term either. */
  lemma CorrectedFindsLeftmost(p: Pattern, h: seq<byte>, isFinalRun: bool)
    requires WellFormed(p)
    ensures NoMatchIn(p, h, 0, |FindPattern(p, AfterCandidateStart, h, isFinalRun).inspected|)
    ensures PrefixFree(p) ==> NoSpellingIn(p, h, 0, |FindPattern(p, AfterCandidateStart, h, isFinalRun).inspected|)
  {
    CursorFindsLeftmost(p, h, isFinalRun, 0);
  }

  /** Under the corrected policy a scan that is not the final run and finds
      nothing passes over no position where the first character begins
      fewer than `MaxLength` bytes from the end: it stops at the first such
      candidate and leaves it for the next chunk. */
  lemma {:induction false} CursorKeepsShort(p: Pattern, h: seq<byte>, c: nat)
    requires WellFormed(p) && c <= |h|
    ensures var r := FindFromCursor(p, AfterCandidateStart, h, false, c);
            !r.Found? ==> forall i :: c <= i < Reach(r, h) && i <= |h| && |h| - i < MaxLength(p) ==> !Starts(p, h, i)
    decreases |h| - c
  {
    hide FindFromCursor, PossibleSequence, Starts, MaxLength, CompareSequence;
    var r := FindFromCursor(p, AfterCandidateStart, h, false, c);
    match PossibleSequence(p, h, c) {
    case None =>
      assert r == NoDelimiter && forall i :: c <= i <= |h| ==> !Starts(p, h, i) by {
        ShortStep(p, h, c);
        PossibleSequenceIsFirst(p, h, c);
      }
    case Some(d) =>
      assert forall i :: c <= i < d ==> !Starts(p, h, i) by { PossibleSequenceIsFirst(p, h, c); }
      if |h| - d < MaxLength(p) {
        assert r == Short(d) by { ShortStep(p, h, c); }
      } else if !r.Found? {
        var r' := FindFromCursor(p, AfterCandidateStart, h, false, d + 1);
        assert r == r' by { ShortStep(p, h, c); }
        CursorKeepsShort(p, h, d + 1);
        forall i | c <= i < Reach(r, h) && i <= |h| && |h| - i < MaxLength(p)
          ensures !Starts(p, h, i)
        {
          if d < i {
            assert d + 1 <= i < Reach(r', h);
          }
        }
      }
    }
  }

  /** One step of the corrected scan on a run that is not the final one: a
      candidate too close to the end is left over, and any other is either
      matched or the scan goes on one byte after it. */
  lemma ShortStep(p: Pattern, h: seq<byte>, c: nat)
    requires WellFormed(p) && c <= |h|
    ensures var r := FindFromCursor(p, AfterCandidateStart, h, false, c);
            match PossibleSequence(p, h, c)
            case None => r == NoDelimiter
            case Some(d) =>
              || (|h| - d < MaxLength(p) && r == Short(d))
              || (MaxLength(p) <= |h| - d && (r.Found? || r == FindFromCursor(p, AfterCandidateStart, h, false, d + 1)))
  {
    match PossibleSequence(p, h, c)
    case None =>
    case Some(d) =>
      if MaxLength(p) <= |h| - d {
        match CompareSequence(p, h, 0, d)
        case Matched(e) =>
        case Mismatch(_, m) =>
      }
  }

  /** Under the corrected policy a miss that is not the final run keeps the
      first candidate too close to the end: nothing inspected is one, and
      the haystack is left empty only when there is none. */
  lemma CorrectedKeepsShort(p: Pattern, h: seq<byte>)
    requires WellFormed(p)
    ensures var r := FindPattern(p, AfterCandidateStart, h, false);
            !r.found ==> forall i :: 0 <= i < |r.inspected| && |h| - i < MaxLength(p) ==> !Starts(p, h, i)
    ensures var r := FindPattern(p, AfterCandidateStart, h, false);
            !r.found && r.rest == [] ==> forall i :: 0 <= i < |h| && |h| - i < MaxLength(p) ==> !Starts(p, h, i)
  {
    CursorKeepsShort(p, h, 0);
  }
}
