/**
 Shared vocabulary of the stream replacers: bytes, the failure datatypes used
 where the C# code throws, the culture-invariant case mapping and sequence
 helpers.

 `char.ToUpperInvariant`, `char.ToLowerInvariant` and `Encoding.GetBytes` are
 library calls whose tables are not part of this model; they are passed around
 as function values (`Casing`, and `seq<char> -> seq<byte>` encoders) so that
 every property below holds for whatever tables the runtime uses.
 */
module Common {

  newtype byte = x: int | 0 <= x < 256

  datatype Option<T> = None | Some(value: T)

  /** The only exception the modelled code can raise by itself: indexing the
      first element of an empty array (`oldValue[0]`, `LowerBytes[0]`, ...). */
  datatype Error = IndexOutOfRange

  datatype Result<T> = Success(value: T) | Failure(error: Error)

  /** The culture-invariant case mapping of single characters
      (`char.ToUpperInvariant`, `char.ToLowerInvariant`).  The model's `char`
      is a Unicode scalar value where .NET's is a UTF-16 code unit; the two
      agree on text without surrogate code units, and text containing them is
      not modelled. */
  datatype Casing = Casing(toUpper: char -> char, toLower: char -> char)

  /** `string.ToUpperInvariant`: `casing` applied to each character. */
  function UpperString(casing: Casing, s: seq<char>): (r: seq<char>)
    ensures |r| == |s|
  {
    seq(|s|, i requires 0 <= i < |s| => casing.toUpper(s[i]))
  }

  /** `string.ToLowerInvariant`: `casing` applied to each character. */
  function LowerString(casing: Casing, s: seq<char>): (r: seq<char>)
    ensures |r| == |s|
  {
    seq(|s|, i requires 0 <= i < |s| => casing.toLower(s[i]))
  }

  function Min(a: nat, b: nat): nat {
    if a <= b then a else b
  }

  function Max(a: nat, b: nat): nat {
    if a <= b then b else a
  }

  /** The concatenation of a sequence of sequences, in order. */
  function Flatten<T>(ss: seq<seq<T>>): seq<T>
    decreases |ss|
  {
    if |ss| == 0 then [] else ss[0] + Flatten(ss[1..])
  }

  lemma {:induction false} FlattenAppend<T>(ss: seq<seq<T>>, ts: seq<seq<T>>)
    ensures Flatten(ss + ts) == Flatten(ss) + Flatten(ts)
    decreases |ss|
  {
    if |ss| == 0 {
      assert ss + ts == ts;
    } else {
      assert (ss + ts)[1..] == ss[1..] + ts;
      FlattenAppend(ss[1..], ts);
    }
  }

  lemma FlattenCons2<T>(x: seq<T>, y: seq<T>, ps: seq<seq<T>>)
    ensures Flatten([x, y] + ps) == x + y + Flatten(ps)
    ensures Flatten([x] + ps) == x + Flatten(ps)
  {
    assert ([x, y] + ps)[1..] == [y] + ps;
    assert ([y] + ps)[1..] == ps;
    assert ([x] + ps)[1..] == ps;
  }

  lemma Regroup4<T>(a: seq<T>, b: seq<T>, c: seq<T>, d: seq<T>)
    ensures (a + b) + c + d == a + b + (c + d)
  {
  }

  /** What an inner scan loop wrote, in order, and the tail it left unscanned. */
  datatype Drained<T> = Drained(pieces: seq<seq<T>>, rest: seq<T>)

  /** A read into `buffer.AsMemory(at, ...)`: `data` lands at
      `at`, the rest of the buffer keeps its contents. */
  function ReadInto<T>(buffer: seq<T>, at: nat, data: seq<T>): (r: seq<T>)
    requires at + |data| <= |buffer|
    ensures |r| == |buffer|
  {
    seq(|buffer|, i requires 0 <= i < |buffer| => if at <= i < at + |data| then data[i - at] else buffer[i])
  }

  /** After the read, the buffer holds its old contents before `at`, then
      `data`, then its old contents again. */
  lemma ReadIntoParts<T>(buffer: seq<T>, at: nat, data: seq<T>)
    requires at + |data| <= |buffer|
    ensures var r := ReadInto(buffer, at, data);
            r[..at] == buffer[..at] && r[at..at + |data|] == data && r[at + |data|..] == buffer[at + |data|..]
  {
  }

  /** `Array.Copy(a, src, a, dst, len)` within one array: the `len` elements
      from `src` on land at `dst`, the rest keeps its contents. */
  function ArrayCopy<T>(a: seq<T>, src: nat, dst: nat, len: nat): (r: seq<T>)
    requires src + len <= |a| && dst + len <= |a|
    ensures |r| == |a|
  {
    seq(|a|, i requires 0 <= i < |a| => if dst <= i < dst + len then a[src + (i - dst)] else a[i])
  }

  /** After the copy, the `len` elements at `dst` are those that were at
      `src`; everything else is unchanged. */
  lemma ArrayCopyParts<T>(a: seq<T>, src: nat, dst: nat, len: nat)
    requires src + len <= |a| && dst + len <= |a|
    ensures var r := ArrayCopy(a, src, dst, len);
            r[..dst] == a[..dst] && r[dst..dst + len] == a[src..src + len] && r[dst + len..] == a[dst + len..]
  {
  }

  /** Copying the last `|rest|` elements of the first `k` to the front of the
      buffer brings exactly the unscanned tail `rest` there. */
  lemma CarriedTail<T>(filled: seq<T>, k: nat, rest: seq<T>)
    requires k <= |filled| && |rest| <= k && rest == filled[..k][k - |rest|..]
    ensures ArrayCopy(filled, k - |rest|, 0, |rest|)[..|rest|] == rest
  {
    ArrayCopyParts(filled, k - |rest|, 0, |rest|);
  }

}
