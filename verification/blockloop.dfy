/**
 The block-read, scan and carry-over loop of `UsingStreamReader.Replace` and
 `UsingPipes.ReadIntoStream` (the two bodies are the same loop; they differ
 only in how a piece of output is written).

 The decoded input is a `seq<char>`.  `StreamReader.ReadBlockAsync` fills the
 free part of the buffer completely unless the input ends first, so the
 reads are determined by the input and the buffer length.  The rented
 buffer is a `seq<char>` of the rented length whose contents before the
 first read are arbitrary.  The loop's output is the list of pieces it
 writes, in order.
 */
module BlockLoop {
  import opened Common
  import opened Scanner
  import opened CharScanner

  /** The arguments of a replacement: the case mapping, `oldValue`,
      `newValue` and how the scanner resumes after a failed comparison. */
  datatype Job = Job(casing: Casing, oldValue: seq<char>, newValue: seq<char>, policy: Resume)

  /** The two delimiters: `oldValue[0]` lower-cased and upper-cased. */
  function Delimiters(casing: Casing, oldValue: seq<char>): (d: set<char>)
    requires 1 <= |oldValue|
    ensures forall c :: c in d <==> c == casing.toLower(oldValue[0]) || c == casing.toUpper(oldValue[0])
  {
    {casing.toLower(oldValue[0]), casing.toUpper(oldValue[0])}
  }

  /** The scanner the loop calls, fixed by the job. */
  function Find(j: Job, s: seq<char>): Candidate {
    FindCandidate(j.casing, s, j.oldValue, if |j.oldValue| == 0 then {} else Delimiters(j.casing, j.oldValue), j.policy)
  }

  /** The replacement of a whole text in one block: the scan loop of
      `Scanner` with the job's comparison, run to the end of the text. */
  function Reference(j: Job, text: seq<char>): seq<char>
    requires 1 <= |j.oldValue|
  {
    JudgeAdvances(j.casing, j.oldValue, j.policy);
    ReplaceAll(text, Delimiters(j.casing, j.oldValue), |j.oldValue|, Judge(j.casing, j.oldValue, j.policy), j.newValue)
  }

  /** The inner loop `while (sequence.Length >= oldValue.Length)`: write
      `before` (and `newValue` on a match) and go on at `position`. */
  function Drain(j: Job, s: seq<char>): (d: Drained<char>)
    requires 1 <= |j.oldValue|
    ensures |d.rest| < |j.oldValue| && |d.rest| <= |s| && d.rest == s[|s| - |d.rest|..]
    decreases |s|
  {
    if |s| < |j.oldValue| then Drained([], s)
    else
      var c := Find(j, s);
      var d := Drain(j, s[c.position..]);
      Drained((if c.found then [c.before, j.newValue] else [c.before]) + d.pieces, d.rest)
  }

  /** `Find` read back as the hit of the `Scanner` loop it runs. */
  lemma FindIsScan(j: Job, s: seq<char>)
    requires 1 <= |j.oldValue|
    ensures Advances(|j.oldValue|, Judge(j.casing, j.oldValue, j.policy))
    ensures var r := FindFrom(s, Delimiters(j.casing, j.oldValue), |j.oldValue|, Judge(j.casing, j.oldValue, j.policy), 0);
            var c := Find(j, s);
            && (r.Found? ==> c == Candidate(true, s[..r.start], r.end))
            && (r.Short? ==> c == Candidate(false, s[..r.at], r.at))
            && (r.NoDelimiter? ==> c == Candidate(false, s, |s|))
  {
    JudgeAdvances(j.casing, j.oldValue, j.policy);
  }

  /** The reference replacement, continued after one scan of a prefix `s`:
      what the scan passed over, then `newValue` on a match, then the
      replacement of the rest of `s` and of whatever follows `s`. */
  lemma ReferenceAfterFind(j: Job, s: seq<char>, b: seq<char>)
    requires 1 <= |j.oldValue|
    ensures var c := Find(j, s);
            c.position <= |s| &&
            Reference(j, s + b) == c.before + (if c.found then j.newValue else []) + Reference(j, s[c.position..] + b)
  {
    var delims, width, judge := Delimiters(j.casing, j.oldValue), |j.oldValue|, Judge(j.casing, j.oldValue, j.policy);
    FindIsScan(j, s);
    match FindFrom(s, delims, width, judge, 0)
    case Found(st, e) =>
      ReplaceAllAfterMatch(s, b, delims, width, judge, j.newValue);
    case Short(p) =>
      ReplaceAllAfterMiss(s, b, delims, width, judge, j.newValue, p);
    case NoDelimiter =>
      ReplaceAllAfterMiss(s, b, delims, width, judge, j.newValue, |s|);
  }

  /** The pieces the inner loop writes, followed by the replacement of its
      tail and of whatever comes after the block, are the replacement of the
      block and what comes after it. */
  lemma {:induction false} DrainExtends(j: Job, s: seq<char>, b: seq<char>)
    requires 1 <= |j.oldValue|
    ensures var d := Drain(j, s);
            Flatten(d.pieces) + Reference(j, d.rest + b) == Reference(j, s + b)
    decreases |s|
  {
    if |j.oldValue| <= |s| {
      var c := Find(j, s);
      var t := s[c.position..];
      var d := Drain(j, t);
      ReferenceAfterFind(j, s, b);
      DrainExtends(j, t, b);
      var m := if c.found then j.newValue else [];
      FlattenCons2(c.before, j.newValue, d.pieces);
      assert Flatten(Drain(j, s).pieces) == c.before + m + Flatten(d.pieces);
      Regroup4(c.before, m, Flatten(d.pieces), Reference(j, d.rest + b));
    }
  }

  /** The outer loop, entered with `consumed` elements of the input already
      read and the carried-over tail in `buffer[..startIndex]`.  Each turn
      reads a block (`ReadBlockAsync` fills the free part of the buffer
      unless the input ends), drains it, and either writes the tail at the
      end of the input or copies the last `|rest|` elements of the buffer to
      its front. */
  function ReadBlocks(j: Job, input: seq<char>, consumed: nat, buffer: seq<char>, startIndex: nat): seq<seq<char>>
    requires 1 <= |j.oldValue| && 2 * |j.oldValue| <= |buffer|
    requires consumed <= |input| && startIndex < |j.oldValue|
    decreases |input| - consumed
  {
    var n := Min(|buffer| - startIndex, |input| - consumed);
    var filled := ReadInto(buffer, startIndex, input[consumed..consumed + n]);
    var d := Drain(j, filled[..startIndex + n]);
    if consumed + n == |input| then
      d.pieces + [d.rest]
    else
      d.pieces + ReadBlocks(j, input, consumed + n, ArrayCopy(filled, |buffer| - |d.rest|, 0, |d.rest|), |d.rest|)
  }

  /** The block a turn scans is the carried tail followed by what was read. */
  lemma FilledBlock(buffer: seq<char>, input: seq<char>, consumed: nat, startIndex: nat, n: nat)
    requires startIndex + n <= |buffer| && consumed + n <= |input|
    ensures ReadInto(buffer, startIndex, input[consumed..consumed + n])[..startIndex + n] + input[consumed + n..]
              == buffer[..startIndex] + input[consumed..]
  {
    var data := input[consumed..consumed + n];
    var filled := ReadInto(buffer, startIndex, data);
    ReadIntoParts(buffer, startIndex, data);
    assert filled[..startIndex + n] == buffer[..startIndex] + data;
    assert input[consumed..] == data + input[consumed + n..];
  }

  /** At the end of the input the inner loop's pieces and the tail it
      writes last are the reference replacement of the block. */
  lemma LastBlock(j: Job, block: seq<char>)
    requires 1 <= |j.oldValue|
    ensures var d := Drain(j, block);
            Flatten(d.pieces + [d.rest]) == Reference(j, block)
  {
    var d := Drain(j, block);
    DrainExtends(j, block, []);
    assert d.rest + [] == d.rest && block + [] == block;
    JudgeAdvances(j.casing, j.oldValue, j.policy);
    ReplaceAllShort(d.rest, Delimiters(j.casing, j.oldValue), |j.oldValue|, Judge(j.casing, j.oldValue, j.policy), j.newValue);
    FlattenAppend(d.pieces, [d.rest]);
    FlattenCons2(d.rest, [], []);
  }

  /** Everything the outer loop writes from here on is the reference
      replacement of the carried tail and the unread input. */
  lemma {:induction false} ReadBlocksReplaces(j: Job, input: seq<char>, consumed: nat, buffer: seq<char>, startIndex: nat)
    requires 1 <= |j.oldValue| && 2 * |j.oldValue| <= |buffer|
    requires consumed <= |input| && startIndex < |j.oldValue|
    ensures Flatten(ReadBlocks(j, input, consumed, buffer, startIndex)) == Reference(j, buffer[..startIndex] + input[consumed..])
    decreases |input| - consumed
  {
    hide Reference, Drain;
    var n := Min(|buffer| - startIndex, |input| - consumed);
    var filled := ReadInto(buffer, startIndex, input[consumed..consumed + n]);
    var block := filled[..startIndex + n];
    var d := Drain(j, block);
    FilledBlock(buffer, input, consumed, startIndex, n);
    if consumed + n == |input| {
      assert input[consumed + n..] == [];
      assert block + [] == block;
      LastBlock(j, block);
    } else {
      var carried := ArrayCopy(filled, |buffer| - |d.rest|, 0, |d.rest|);
      var b := input[consumed + n..];
      var tail := ReadBlocks(j, input, consumed + n, carried, |d.rest|);
      CarriedTail(filled, startIndex + n, d.rest);
      ReadBlocksReplaces(j, input, consumed + n, carried, |d.rest|);
      assert Flatten(tail) == Reference(j, d.rest + b);
      DrainExtends(j, block, b);
      assert ReadBlocks(j, input, consumed, buffer, startIndex) == d.pieces + tail;
      FlattenAppend(d.pieces, tail);
    }
  }

  /** The loop entered at the start of the input writes the reference
      replacement of the whole input. */
  lemma WholeInput(j: Job, rented: seq<char>, input: seq<char>)
    requires 1 <= |j.oldValue| && 2 * |j.oldValue| <= |rented|
    ensures Flatten(ReadBlocks(j, input, 0, rented, 0)) == Reference(j, input)
  {
    hide Reference, ReadBlocks;
    ReadBlocksReplaces(j, input, 0, rented, 0);
    assert rented[..0] + input[0..] == input;
  }

  /** `UsingStreamReader.Replace`: rent a buffer of at least
      `max(bufferLength, 2 * |oldValue|)` chars (`rented`, whatever it holds),
      take the delimiters from `oldValue[0]` — which throws for an empty
      `oldValue` — and run the loop over the whole input.  The text written
      is the one-block replacement of the input, whatever the buffer length
      and the rented buffer's stale contents. */
  function StreamReaderReplace(j: Job, bufferLength: int, rented: seq<char>, input: seq<char>): (r: Result<seq<char>>)
    requires bufferLength <= |rented| && 2 * |j.oldValue| <= |rented|
    ensures r.Failure? <==> |j.oldValue| == 0
    ensures r.Failure? ==> r.error == IndexOutOfRange
    ensures r.Success? ==> r.value == Reference(j, input)
  {
    if |j.oldValue| == 0 then Failure(IndexOutOfRange)
    else
      WholeInput(j, rented, input);
      Success(Flatten(ReadBlocks(j, input, 0, rented, 0)))
  }

  /** The output does not depend on the buffer length or on what the rented
      buffer held: any two runs over the same input write the same text. */
  lemma BufferIrrelevant(j: Job, lengthA: int, rentedA: seq<char>, lengthB: int, rentedB: seq<char>, input: seq<char>)
    requires lengthA <= |rentedA| && 2 * |j.oldValue| <= |rentedA|
    requires lengthB <= |rentedB| && 2 * |j.oldValue| <= |rentedB|
    ensures StreamReaderReplace(j, lengthA, rentedA, input) == StreamReaderReplace(j, lengthB, rentedB, input)
  {
  }

  /** An encoder that maps a concatenation to the concatenation of the
      encodings. */
  ghost predicate Homomorphic(encode: seq<char> -> seq<byte>) {
    forall a: seq<char>, b: seq<char> {:trigger encode(a + b)} :: encode(a + b) == encode(a) + encode(b)
  }

  /** `Encoding.UTF8.GetBytes(piece, writer)` for every piece, in order. */
  function EncodeEach(encode: seq<char> -> seq<byte>, pieces: seq<seq<char>>): seq<byte>
    decreases |pieces|
  {
    if |pieces| == 0 then [] else encode(pieces[0]) + EncodeEach(encode, pieces[1..])
  }

  /** Encoding piece by piece is encoding the concatenation, for a
      homomorphic encoder. */
  lemma {:induction false} EncodeEachFlatten(encode: seq<char> -> seq<byte>, pieces: seq<seq<char>>)
    ensures Homomorphic(encode) ==> EncodeEach(encode, pieces) == encode(Flatten(pieces))
    decreases |pieces|
  {
    if !Homomorphic(encode) {
    } else if |pieces| == 0 {
      var e: seq<char> := [];
      assert e + e == e;
      assert encode(e + e) == encode(e) + encode(e);
    } else {
      EncodeEachFlatten(encode, pieces[1..]);
      assert encode(pieces[0] + Flatten(pieces[1..])) == encode(pieces[0]) + encode(Flatten(pieces[1..]));
    }
  }

  /** `UsingPipes.ReadIntoStream`: the same loop, each piece UTF-8 encoded
      into the pipe on its own.  The bytes written are the encoding of the
      one-block replacement when the encoder is homomorphic. */
  function PipesReadIntoStream(j: Job, encode: seq<char> -> seq<byte>, bufferLength: int, rented: seq<char>, input: seq<char>): (r: Result<seq<byte>>)
    requires bufferLength <= |rented| && 2 * |j.oldValue| <= |rented|
    ensures r.Failure? <==> |j.oldValue| == 0
    ensures r.Failure? ==> r.error == IndexOutOfRange
    ensures r.Success? && Homomorphic(encode) ==> r.value == encode(Reference(j, input))
  {
    if |j.oldValue| == 0 then Failure(IndexOutOfRange)
    else
      var pieces := ReadBlocks(j, input, 0, rented, 0);
      WholeInput(j, rented, input);
      EncodeEachFlatten(encode, pieces);
      Success(EncodeEach(encode, pieces))
  }
}

