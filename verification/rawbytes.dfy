/**
 `UsingRawByteStream`: the replacer that never decodes its input.  It encodes
 `oldValue` upper-cased and lower-cased once, scans the raw bytes for a window
 whose every byte is the upper-cased or the lower-cased pattern's byte at that
 position, and carries the unscanned tail of every read over to the next one.

 The scan is the cursor loop of `Scanner` with a window of `LengthInBytes`
 bytes.  `CompareSequence` checks the bytes after the first with
 `SequenceReader.IsNext(b, true)`, which only moves the reader on a match, so
 after a failed comparison the reader rests on the mismatching byte.

 `Stream.ReadAsync` may return fewer bytes than asked for.  The stream is
 modelled as the chunks in which its bytes become available: a read takes as
 much of the first chunk as fits in the free part of the buffer.  Every
 sequence of read sizes a stream may produce is the chunking of some such
 list, so what is proved for every list of chunks holds for every stream.
 */
module RawByteStream {
  import opened Common
  import opened Scanner

  /** The private `Pattern` record: `oldValue` encoded upper-cased and
      lower-cased. */
  datatype Pattern = Pattern(upperBytes: seq<byte>, lowerBytes: seq<byte>)

  /** A pattern the scan can work with: the constructor's indexing of the
      first byte succeeded and the two encodings have the same length, which
      the record documents as an assumption. */
  predicate Usable(p: Pattern) {
    1 <= |p.upperBytes| && |p.upperBytes| == |p.lowerBytes|
  }

  /** `LengthInBytes`: the length of the upper-cased encoding. */
  function LengthInBytes(p: Pattern): nat {
    |p.upperBytes|
  }

  /** `Delimiters`: the first byte of each encoding. */
  function Delimiters(p: Pattern): (d: set<byte>)
    requires Usable(p)
    ensures forall b :: b in d <==> b == p.lowerBytes[0] || b == p.upperBytes[0]
  {
    {p.lowerBytes[0], p.upperBytes[0]}
  }

  /** The byte `b` may stand at position `i` of a match. */
  predicate ByteMatches(p: Pattern, b: byte, i: nat)
    requires Usable(p) && i < LengthInBytes(p)
  {
    b == p.upperBytes[i] || b == p.lowerBytes[i]
  }

  /** `w` is a match: each of its bytes is the upper-cased or the lower-cased
      pattern's byte at its position (the two may be mixed freely). */
  predicate Spells(p: Pattern, w: seq<byte>)
    requires Usable(p)
  {
    |w| == LengthInBytes(p) && forall i :: 0 <= i < |w| ==> ByteMatches(p, w[i], i)
  }

  /** `CompareSequence` from the `i`-th byte of the window on: the first
      position whose byte matches neither encoding, if there is one. */
  function CompareSequence(p: Pattern, w: seq<byte>, i: nat): (r: Option<nat>)
    requires Usable(p) && |w| == LengthInBytes(p) && 1 <= i <= |w|
    ensures r.None? <==> forall k :: i <= k < |w| ==> ByteMatches(p, w[k], k)
    ensures r.Some? ==> i <= r.value < |w| && !ByteMatches(p, w[r.value], r.value)
                        && forall k :: i <= k < r.value ==> ByteMatches(p, w[k], k)
    decreases |w| - i
  {
    if i == |w| then None
    else if !ByteMatches(p, w[i], i) then Some(i)
    else CompareSequence(p, w, i + 1)
  }

  /** The comparison at a delimiter, as a judge of the `Scanner` loop: the
      first byte is taken as matching, and a mismatch at `i` leaves the
      reader at `i`, where `WhereLeft` goes on. */
  function Judge(p: Pattern, policy: Resume): seq<byte> -> Verdict
    requires Usable(p)
  {
    w =>
      if |w| != LengthInBytes(p) then Reject(1)
      else
        match CompareSequence(p, w, 1)
        case None => Accept
        case Some(i) => Reject(if policy == WhereLeft then i else 1)
  }

  /** At a delimiter the judge accepts exactly the matches. */
  lemma JudgeAccepts(p: Pattern, policy: Resume, w: seq<byte>)
    requires Usable(p) && |w| == LengthInBytes(p) && w[0] in Delimiters(p)
    ensures Judge(p, policy)(w) == Accept <==> Spells(p, w)
  {
  }

  /** A rejection leaves the reader on a byte inside the window past the
      delimiter, so the loop always moves on; the corrected policy always
      restarts after the candidate's first byte. */
  lemma JudgeAdvances(p: Pattern, policy: Resume)
    requires Usable(p)
    ensures Advances(LengthInBytes(p), Judge(p, policy))
    ensures policy == AfterCandidateStart ==> Restarts(LengthInBytes(p), Judge(p, policy))
  {
  }

  /** The replacement of a whole text in one block: the scan loop run to the
      end of the text with every match replaced by `newBytes`. */
  function Reference(p: Pattern, policy: Resume, newBytes: seq<byte>, text: seq<byte>): seq<byte>
    requires Usable(p)
  {
    JudgeAdvances(p, policy);
    ReplaceAll(text, Delimiters(p), LengthInBytes(p), Judge(p, policy), newBytes)
  }

  /** `FindPattern`'s outcome: whether it found a match, the bytes it passed
      over (`inspected`), and what it leaves of the haystack. */
  datatype Scan = Scan(found: bool, inspected: seq<byte>, rest: seq<byte>)

  /** The scan loop, read back into `inspected` and the new haystack. */
  function ScanPattern(p: Pattern, policy: Resume, h: seq<byte>): Scan
    requires Usable(p)
  {
    JudgeAdvances(p, policy);
    match FindFrom(h, Delimiters(p), LengthInBytes(p), Judge(p, policy), 0)
    case Found(s, e) => Scan(true, h[..s], h[e..])
    case Short(d) => Scan(false, h[..d], h[d..])
    case NoDelimiter => Scan(false, h, [])
  }

  /** What every return of `FindPattern` promises. */
  ghost predicate Reports(p: Pattern, policy: Resume, h: seq<byte>, r: Scan)
    requires Usable(p)
  {
    var n := |r.inspected|;
    && (r.found ==> n + LengthInBytes(p) + |r.rest| == |h|
                    && h == r.inspected + h[n..n + LengthInBytes(p)] + r.rest
                    && h[n] in Delimiters(p) && Spells(p, h[n..n + LengthInBytes(p)]))
    && (!r.found ==> h == r.inspected + r.rest && |r.rest| < LengthInBytes(p)
                     && (r.rest != [] ==> r.rest[0] in Delimiters(p)))
    && ((forall i :: 0 <= i < |h| ==> h[i] !in Delimiters(p)) ==> !r.found && r.inspected == h)
  }

  lemma FoundReports(p: Pattern, policy: Resume, h: seq<byte>, s: nat, e: nat)
    requires Usable(p) && e == s + LengthInBytes(p) <= |h|
    requires Occurs(h, Delimiters(p), LengthInBytes(p), Judge(p, policy), s)
    ensures Reports(p, policy, h, Scan(true, h[..s], h[e..]))
  {
    JudgeAccepts(p, policy, h[s..e]);
    assert h == h[..s] + h[s..e] + h[e..];
  }

  lemma ScanPatternReports(p: Pattern, policy: Resume, h: seq<byte>)
    requires Usable(p)
    ensures Reports(p, policy, h, ScanPattern(p, policy, h))
  {
    JudgeAdvances(p, policy);
    var delims, width := Delimiters(p), LengthInBytes(p);
    FindFromSound(h, delims, width, Judge(p, policy), 0);
    match FindFrom(h, delims, width, Judge(p, policy), 0)
    case Found(s, e) =>
      FoundReports(p, policy, h, s, e);
    case Short(d) =>
      assert h == h[..d] + h[d..];
    case NoDelimiter =>
  }

  /** `FindPattern`: on a match, `inspected` is what precedes it and the
      haystack is cut after it; otherwise the haystack keeps only a
      delimiter too close to the end to decide and what follows it, or
      nothing when no delimiter is left. */
  function FindPattern(p: Pattern, policy: Resume, h: seq<byte>): (r: Scan)
    requires Usable(p)
    ensures var n := |r.inspected|;
            r.found ==> n + LengthInBytes(p) + |r.rest| == |h|
                        && h == r.inspected + h[n..n + LengthInBytes(p)] + r.rest
                        && h[n] in Delimiters(p) && Spells(p, h[n..n + LengthInBytes(p)])
    ensures !r.found ==> h == r.inspected + r.rest && |r.rest| < LengthInBytes(p)
                         && (r.rest != [] ==> r.rest[0] in Delimiters(p))
    ensures (forall i :: 0 <= i < |h| ==> h[i] !in Delimiters(p)) ==> !r.found && r.inspected == h
  {
    ScanPatternReports(p, policy, h);
    ScanPattern(p, policy, h)
  }

  /** The inner `while (true)` loop: write `inspected` (and the replacement
      after a match) until `FindPattern` reports no match. */
  function Drain(p: Pattern, policy: Resume, newBytes: seq<byte>, s: seq<byte>): (d: Drained<byte>)
    requires Usable(p)
    ensures |d.rest| < LengthInBytes(p) && |d.rest| <= |s| && d.rest == s[|s| - |d.rest|..]
    decreases |s|
  {
    var f := FindPattern(p, policy, s);
    if f.found then
      var d := Drain(p, policy, newBytes, f.rest);
      assert f.rest == s[|s| - |f.rest|..];
      Drained([f.inspected, newBytes] + d.pieces, d.rest)
    else
      Drained([f.inspected], f.rest)
  }

  /** The reference replacement, continued after one `FindPattern` on a
      prefix `s`: what it inspected, then `newBytes` on a match, then the
      replacement of what it left of `s` and of whatever follows `s`. */
  lemma ReferenceAfterFind(p: Pattern, policy: Resume, newBytes: seq<byte>, s: seq<byte>, b: seq<byte>)
    requires Usable(p)
    ensures var f := FindPattern(p, policy, s);
            Reference(p, policy, newBytes, s + b)
              == f.inspected + (if f.found then newBytes else []) + Reference(p, policy, newBytes, f.rest + b)
  {
    var delims, width, judge := Delimiters(p), LengthInBytes(p), Judge(p, policy);
    JudgeAdvances(p, policy);
    match FindFrom(s, delims, width, judge, 0)
    case Found(st, e) =>
      ReplaceAllAfterMatch(s, b, delims, width, judge, newBytes);
    case Short(d) =>
      ReplaceAllAfterMiss(s, b, delims, width, judge, newBytes, d);
    case NoDelimiter =>
      ReplaceAllAfterMiss(s, b, delims, width, judge, newBytes, |s|);
      assert s[|s|..] == [];
  }

  /** The pieces the inner loop writes, followed by the replacement of its
      tail and of whatever comes after the block, are the replacement of the
      block and what comes after it. */
  lemma {:induction false} DrainExtends(p: Pattern, policy: Resume, newBytes: seq<byte>, s: seq<byte>, b: seq<byte>)
    requires Usable(p)
    ensures var d := Drain(p, policy, newBytes, s);
            Flatten(d.pieces) + Reference(p, policy, newBytes, d.rest + b) == Reference(p, policy, newBytes, s + b)
    decreases |s|
  {
    var f := FindPattern(p, policy, s);
    ReferenceAfterFind(p, policy, newBytes, s, b);
    if f.found {
      var d := Drain(p, policy, newBytes, f.rest);
      DrainExtends(p, policy, newBytes, f.rest, b);
      FlattenCons2(f.inspected, newBytes, d.pieces);
      assert Flatten(Drain(p, policy, newBytes, s).pieces) == f.inspected + newBytes + Flatten(d.pieces);
      Regroup4(f.inspected, newBytes, Flatten(d.pieces), Reference(p, policy, newBytes, d.rest + b));
    } else {
      FlattenCons2(f.inspected, [], []);
    }
  }

  /** The chunks of a stream that has not ended are never empty:
      `ReadAsync` returns 0 only at the end of the stream. */
  predicate NonEmptyChunks(chunks: seq<seq<byte>>) {
    forall i :: 0 <= i < |chunks| ==> 1 <= |chunks[i]|
  }

  /** The chunks left after a read that took `k` bytes of the first one. */
  function AfterRead(chunks: seq<seq<byte>>, k: nat): (r: seq<seq<byte>>)
    requires 1 <= |chunks| && 1 <= k <= |chunks[0]| && NonEmptyChunks(chunks)
    ensures NonEmptyChunks(r)
    ensures |r| < |chunks| || (|r| == |chunks| && |r[0]| < |chunks[0]|)
    ensures chunks[0][..k] + Flatten(r) == Flatten(chunks)
  {
    assert chunks[0] == chunks[0][..k] + chunks[0][k..];
    if k == |chunks[0]| then chunks[1..] else [chunks[0][k..]] + chunks[1..]
  }

  /** What one turn of the outer loop leaves behind: the pieces it wrote, the
      chunks still to come, the buffer after the tail was copied to its
      front, and the length of that tail. */
  datatype Turn = Turn(pieces: seq<seq<byte>>, left: seq<seq<byte>>, carried: seq<byte>, held: nat)

  /** One turn when a chunk is left: read as much of it as fits in the free
      part of the buffer, drain the bytes held and copy the last `|rest|` of
      them to the front of the buffer. */
  function ReadTurn(p: Pattern, policy: Resume, newBytes: seq<byte>, chunks: seq<seq<byte>>, buffer: seq<byte>, startIndex: nat): (t: Turn)
    requires Usable(p) && 2 * LengthInBytes(p) <= |buffer| && startIndex < LengthInBytes(p)
    requires NonEmptyChunks(chunks) && 1 <= |chunks|
    ensures NonEmptyChunks(t.left) && (|t.left| < |chunks| || (|t.left| == |chunks| && |t.left[0]| < |chunks[0]|))
    ensures |t.carried| == |buffer| && t.held < LengthInBytes(p)
  {
    var k := Min(|buffer| - startIndex, |chunks[0]|);
    var filled := ReadInto(buffer, startIndex, chunks[0][..k]);
    var d := Drain(p, policy, newBytes, filled[..startIndex + k]);
    Turn(d.pieces, AfterRead(chunks, k), ArrayCopy(filled, startIndex + k - |d.rest|, 0, |d.rest|), |d.rest|)
  }

  /** The outer loop, entered with the carried-over tail in
      `buffer[..startIndex]`: a read of 0 bytes (no chunk left) writes the
      tail and ends, otherwise a turn is taken. */
  function ReadLoop(p: Pattern, policy: Resume, newBytes: seq<byte>, chunks: seq<seq<byte>>, buffer: seq<byte>, startIndex: nat): seq<seq<byte>>
    requires Usable(p) && 2 * LengthInBytes(p) <= |buffer| && startIndex < LengthInBytes(p)
    requires NonEmptyChunks(chunks)
    decreases |chunks|, if |chunks| == 0 then 0 else |chunks[0]|
  {
    if |chunks| == 0 then [buffer[..startIndex]]
    else
      var t := ReadTurn(p, policy, newBytes, chunks, buffer, startIndex);
      t.pieces + ReadLoop(p, policy, newBytes, t.left, t.carried, t.held)
  }

  /** The block a turn drains is the carried tail followed by what was read. */
  lemma FilledBlock(buffer: seq<byte>, startIndex: nat, data: seq<byte>, more: seq<byte>)
    requires startIndex + |data| <= |buffer|
    ensures ReadInto(buffer, startIndex, data)[..startIndex + |data|] + more == buffer[..startIndex] + (data + more)
  {
    ReadIntoParts(buffer, startIndex, data);
    assert ReadInto(buffer, startIndex, data)[..startIndex + |data|] == buffer[..startIndex] + data;
  }

  /** A turn loses nothing: what it writes, followed by the replacement of
      the tail it carries and of the chunks still to come, is the
      replacement of the tail it was entered with and of every chunk. */
  lemma ReadTurnReplaces(p: Pattern, policy: Resume, newBytes: seq<byte>, chunks: seq<seq<byte>>, buffer: seq<byte>, startIndex: nat)
    requires Usable(p) && 2 * LengthInBytes(p) <= |buffer| && startIndex < LengthInBytes(p)
    requires NonEmptyChunks(chunks) && 1 <= |chunks|
    ensures var t := ReadTurn(p, policy, newBytes, chunks, buffer, startIndex);
            Flatten(t.pieces) + Reference(p, policy, newBytes, t.carried[..t.held] + Flatten(t.left))
              == Reference(p, policy, newBytes, buffer[..startIndex] + Flatten(chunks))
  {
    hide Reference, FindPattern, Flatten, Drain, ReadInto, ArrayCopy, AfterRead;
    var t := ReadTurn(p, policy, newBytes, chunks, buffer, startIndex);
    var k := Min(|buffer| - startIndex, |chunks[0]|);
    var data := chunks[0][..k];
    var filled := ReadInto(buffer, startIndex, data);
    var block := filled[..startIndex + k];
    var d := Drain(p, policy, newBytes, block);
    var b := Flatten(AfterRead(chunks, k));
    assert t.pieces == d.pieces && Flatten(t.left) == b;
    assert t.carried[..t.held] == d.rest by {
      CarriedTail(filled, startIndex + k, d.rest);
    }
    assert block + b == buffer[..startIndex] + Flatten(chunks) by {
      FilledBlock(buffer, startIndex, data, b);
    }
    DrainExtends(p, policy, newBytes, block, b);
  }

  /** The bookkeeping of one turn: the pieces of this turn followed by those
      of the later turns flatten to what the replacement of the block
      continues with. */
  lemma ChainTurn(all: seq<seq<byte>>, pieces: seq<seq<byte>>, tail: seq<seq<byte>>, later: seq<byte>, whole: seq<byte>)
    requires all == pieces + tail && Flatten(tail) == later && Flatten(pieces) + later == whole
    ensures Flatten(all) == whole
  {
    FlattenAppend(pieces, tail);
  }

  /** A tail shorter than the pattern, written as it is at the end of the
      stream, is its own replacement. */
  lemma TailIsFinal(p: Pattern, policy: Resume, newBytes: seq<byte>, tail: seq<byte>)
    requires Usable(p) && |tail| < LengthInBytes(p)
    ensures Flatten([tail]) == Reference(p, policy, newBytes, tail)
  {
    JudgeAdvances(p, policy);
    ReplaceAllShort(tail, Delimiters(p), LengthInBytes(p), Judge(p, policy), newBytes);
    FlattenCons2(tail, [], []);
    assert tail + [] == tail;
  }

  /** Whatever the chunking, the loop writes the reference replacement of
      the carried tail followed by every byte still to come. */
  lemma {:induction false} ReadLoopReplaces(p: Pattern, policy: Resume, newBytes: seq<byte>, chunks: seq<seq<byte>>, buffer: seq<byte>, startIndex: nat)
    requires Usable(p) && 2 * LengthInBytes(p) <= |buffer| && startIndex < LengthInBytes(p)
    requires NonEmptyChunks(chunks)
    ensures Flatten(ReadLoop(p, policy, newBytes, chunks, buffer, startIndex)) == Reference(p, policy, newBytes, buffer[..startIndex] + Flatten(chunks))
    decreases |chunks|, if |chunks| == 0 then 0 else |chunks[0]|
  {
    hide Reference, Drain;
    if |chunks| == 0 {
      assert buffer[..startIndex] + Flatten(chunks) == buffer[..startIndex];
      TailIsFinal(p, policy, newBytes, buffer[..startIndex]);
    } else {
      hide ReadTurn, Flatten;
      var t := ReadTurn(p, policy, newBytes, chunks, buffer, startIndex);
      ReadLoopReplaces(p, policy, newBytes, t.left, t.carried, t.held);
      ReadTurnReplaces(p, policy, newBytes, chunks, buffer, startIndex);
      ChainTurn(ReadLoop(p, policy, newBytes, chunks, buffer, startIndex), t.pieces, ReadLoop(p, policy, newBytes, t.left, t.carried, t.held),
                Reference(p, policy, newBytes, t.carried[..t.held] + Flatten(t.left)),
                Reference(p, policy, newBytes, buffer[..startIndex] + Flatten(chunks)));
    }
  }

  /** The stream read to its end from an empty carried tail. */
  lemma WholeStream(p: Pattern, policy: Resume, newBytes: seq<byte>, rented: seq<byte>, chunks: seq<seq<byte>>)
    requires Usable(p) && 2 * LengthInBytes(p) <= |rented| && NonEmptyChunks(chunks)
    ensures Flatten(ReadLoop(p, policy, newBytes, chunks, rented, 0)) == Reference(p, policy, newBytes, Flatten(chunks))
  {
    hide Reference, ReadLoop;
    ReadLoopReplaces(p, policy, newBytes, chunks, rented, 0);
    assert rented[..0] + Flatten(chunks) == Flatten(chunks);
  }

  /** `Replace`: build the pattern with the encoder `encode`
      (`Encoding.Default`), rent a buffer of at least `bufferLength` and
      twice the pattern's length, and run the read loop over the stream's
      chunks.  The pattern's constructor fails on an empty encoding; past
      it, the bytes written are the replacement of the whole stream in one
      block, whatever the chunking and the buffer's prior contents. */
  function Replace(casing: Casing, encode: seq<char> -> seq<byte>, oldValue: seq<char>, newValue: seq<char>, policy: Resume,
                   bufferLength: int, rented: seq<byte>, chunks: seq<seq<byte>>): (r: Result<seq<byte>>)
    requires |encode(UpperString(casing, oldValue))| == |encode(LowerString(casing, oldValue))|
    requires bufferLength <= |rented| && 2 * |encode(UpperString(casing, oldValue))| <= |rented|
    requires NonEmptyChunks(chunks)
    ensures r.Failure? <==> |encode(LowerString(casing, oldValue))| == 0
    ensures r.Failure? ==> r.error == IndexOutOfRange
    ensures var p := Pattern(encode(UpperString(casing, oldValue)), encode(LowerString(casing, oldValue)));
            r.Success? ==> Usable(p) && r.value == Reference(p, policy, encode(newValue), Flatten(chunks))
  {
    var p := Pattern(encode(UpperString(casing, oldValue)), encode(LowerString(casing, oldValue)));
    if |p.lowerBytes| == 0 then Failure(IndexOutOfRange)
    else
      WholeStream(p, policy, encode(newValue), rented, chunks);
      Success(Flatten(ReadLoop(p, policy, encode(newValue), chunks, rented, 0)))
  }

  /** How the stream splits its bytes into reads, the buffer length and
      what the rented buffer held before do not change what is written. */
  lemma ChunkingIrrelevant(casing: Casing, encode: seq<char> -> seq<byte>, oldValue: seq<char>, newValue: seq<char>, policy: Resume,
                           lengthA: int, rentedA: seq<byte>, chunksA: seq<seq<byte>>,
                           lengthB: int, rentedB: seq<byte>, chunksB: seq<seq<byte>>)
    requires |encode(UpperString(casing, oldValue))| == |encode(LowerString(casing, oldValue))|
    requires lengthA <= |rentedA| && 2 * |encode(UpperString(casing, oldValue))| <= |rentedA|
    requires lengthB <= |rentedB| && 2 * |encode(UpperString(casing, oldValue))| <= |rentedB|
    requires NonEmptyChunks(chunksA) && NonEmptyChunks(chunksB) && Flatten(chunksA) == Flatten(chunksB)
    ensures Replace(casing, encode, oldValue, newValue, policy, lengthA, rentedA, chunksA)
            == Replace(casing, encode, oldValue, newValue, policy, lengthB, rentedB, chunksB)
  {
  }

  /** An input without a delimiter, or too short to hold a match, is copied
      unchanged. */
  lemma NothingToReplace(p: Pattern, policy: Resume, newBytes: seq<byte>, text: seq<byte>)
    requires Usable(p)
    requires |text| < LengthInBytes(p) || forall i :: 0 <= i < |text| ==> text[i] !in Delimiters(p)
    ensures Reference(p, policy, newBytes, text) == text
  {
    JudgeAdvances(p, policy);
    if |text| < LengthInBytes(p) {
      ReplaceAllShort(text, Delimiters(p), LengthInBytes(p), Judge(p, policy), newBytes);
    } else {
      ReplaceAllIdentity(text, Delimiters(p), LengthInBytes(p), Judge(p, policy), newBytes);
    }
  }

  /** `FindPattern` finds what the scan loop finds, and reports as inspected
      what precedes it. */
  lemma FindPatternFrom(p: Pattern, policy: Resume, h: seq<byte>)
    requires Usable(p)
    ensures var f := FindFrom(h, Delimiters(p), LengthInBytes(p), Judge(p, policy), 0);
            var r := FindPattern(p, policy, h);
            (r.found <==> f.Found?) && (f.Found? ==> |r.inspected| == f.start)
  {
    JudgeAdvances(p, policy);
  }

  /** Under the corrected policy the match `FindPattern` reports is the
      leftmost one, and it reports none only when there is none. */
  lemma {:induction false} CorrectedFindsLeftmost(p: Pattern, h: seq<byte>)
    requires Usable(p)
    ensures var r := FindPattern(p, AfterCandidateStart, h);
            forall i :: (0 <= i < (if r.found then |r.inspected| else |h|) && i + LengthInBytes(p) <= |h|
                         && h[i] in Delimiters(p)) ==> !Spells(p, h[i..i + LengthInBytes(p)])
  {
    var judge := Judge(p, AfterCandidateStart);
    JudgeAdvances(p, AfterCandidateStart);
    RestartingFindsLeftmost(h, Delimiters(p), LengthInBytes(p), judge, 0);
    FindPatternFrom(p, AfterCandidateStart, h);
    hide FindFrom, CompareSequence, NextDelimiter, FindPattern, ScanPattern, Spells, Judge, Occurs;
    var r := FindPattern(p, AfterCandidateStart, h);
    forall i | 0 <= i < (if r.found then |r.inspected| else |h|) && i + LengthInBytes(p) <= |h| && h[i] in Delimiters(p)
      ensures !Spells(p, h[i..i + LengthInBytes(p)])
    {
      NotSpelledWhereNotOccurs(p, AfterCandidateStart, h, i);
    }
  }

  /** Where the scan loop sees no occurrence the pattern is not spelled. */
  lemma NotSpelledWhereNotOccurs(p: Pattern, policy: Resume, h: seq<byte>, i: nat)
    requires Usable(p) && i + LengthInBytes(p) <= |h| && h[i] in Delimiters(p)
    requires !Occurs(h, Delimiters(p), LengthInBytes(p), Judge(p, policy), i)
    ensures !Spells(p, h[i..i + LengthInBytes(p)])
  {
    JudgeAccepts(p, policy, h[i..i + LengthInBytes(p)]);
  }
}
