module TestCases {
  import opened Common
  import opened Scanner
  import opened CharScanner
  import opened BlockLoop
  import RawByteStream
  import BytePattern

  function AsciiUpper(c: char): char { if 'a' <= c <= 'z' then (c as int - 32) as char else c }
  function AsciiLower(c: char): char { if 'A' <= c <= 'Z' then (c as int + 32) as char else c }
  const Ascii := Casing(AsciiUpper, AsciiLower)

  function Utf8Char(c: char): seq<byte> {
    var v := c as int;
    if v < 0x80 then [v as byte]
    else if v < 0x800 then [(0xC0 + v / 0x40) as byte, (0x80 + v % 0x40) as byte]
    else if v < 0x10000 then [(0xE0 + v / 0x1000) as byte, (0x80 + v / 0x40 % 0x40) as byte, (0x80 + v % 0x40) as byte]
    else [(0xF0 + v / 0x40000) as byte, (0x80 + v / 0x1000 % 0x40) as byte, (0x80 + v / 0x40 % 0x40) as byte, (0x80 + v % 0x40) as byte]
  }

  function Utf8(s: seq<char>): seq<byte>
    decreases |s|
  {
    if |s| == 0 then [] else Utf8Char(s[0]) + Utf8(s[1..])
  }

  /** The length of a UTF-8 sequence, read off its lead byte. */
  function Utf8Width(lead: byte): nat {
    if lead < 0x80 then 1 else if lead < 0xE0 then 2 else if lead < 0xF0 then 3 else 4
  }

  lemma Utf8CharWidth(c: char)
    ensures 1 <= |Utf8Char(c)| && |Utf8Char(c)| == Utf8Width(Utf8Char(c)[0])
  {
  }

  /** UTF-8 is a prefix code: no character's encoding is a proper prefix of
      another's. */
  lemma Utf8CharPrefixFree(a: char, b: char)
    ensures Utf8Char(a) <= Utf8Char(b) ==> Utf8Char(a) == Utf8Char(b)
  {
    Utf8CharWidth(a);
    Utf8CharWidth(b);
  }

  /** Every pattern built over UTF-8 has prefix-free encodings, whatever the
      case mapping. */
  lemma Utf8PatternsPrefixFree(casing: Casing, value: seq<char>)
    ensures var r := BytePattern.NewPattern(casing, Utf8, value);
            r.Success? ==> BytePattern.PrefixFree(r.value)
  {
    forall c: char
      ensures BytePattern.PrefixFreeMap(BytePattern.MapOf(casing, Utf8, c))
    {
      var u, l := casing.toUpper(c), casing.toLower(c);
      assert [u][1..] == [] && [l][1..] == [];
      assert Utf8([u]) == Utf8Char(u) && Utf8([l]) == Utf8Char(l);
      Utf8CharPrefixFree(u, l);
      Utf8CharPrefixFree(l, u);
    }
  }

  lemma AbcEncodings()
    ensures Utf8(UpperString(Ascii, "abc")) == [65, 66, 67]
    ensures Utf8(LowerString(Ascii, "abc")) == [97, 98, 99]
  {
    assert Ascii.toUpper('a') == 'A' && Ascii.toUpper('b') == 'B' && Ascii.toUpper('c') == 'C';
    assert Ascii.toLower('a') == 'a' && Ascii.toLower('b') == 'b' && Ascii.toLower('c') == 'c';
    var u, l := UpperString(Ascii, "abc"), LowerString(Ascii, "abc");
    assert u[0] == 'A' && u[1] == 'B' && u[2] == 'C';
    assert u == "ABC";
    assert l[0] == 'a' && l[1] == 'b' && l[2] == 'c';
    assert l == "abc";
    assert Utf8("C") == [67];
    assert Utf8("BC") == [66, 67];
    assert Utf8("c") == [99];
    assert Utf8("bc") == [98, 99];
  }

  lemma EuroChar()
    ensures Utf8Char('€') == [0xE2, 0x82, 0xAC]
  {
    var v := '€' as int;
    assert v == 0x20AC;
    assert v / 0x1000 == 2 && v / 0x40 % 0x40 == 2 && v % 0x40 == 0x2C;
  }

  lemma OneByte(c: char)
    requires c as int < 0x80
    ensures Utf8Char(c) == [c as int as byte]
  {
  }

  lemma Euro()
    ensures Utf8("abc€") == Lower + [0xE2, 0x82, 0xAC]
    ensures Utf8("123€") == Digits + [0xE2, 0x82, 0xAC]
  {
    EuroChar();
    OneByte('a'); OneByte('b'); OneByte('c'); OneByte('2'); OneByte('3');
    hide Utf8Char;
    assert Utf8("€") == [0xE2, 0x82, 0xAC];
    assert Utf8("c€") == [99, 0xE2, 0x82, 0xAC];
    assert Utf8("bc€") == [98, 99, 0xE2, 0x82, 0xAC];
    assert Utf8("3€") == [51, 0xE2, 0x82, 0xAC];
    assert Utf8("23€") == [50, 51, 0xE2, 0x82, 0xAC];
  }

  lemma {:induction false} Utf8Append(a: seq<char>, b: seq<char>)
    ensures Utf8(a + b) == Utf8(a) + Utf8(b)
    decreases |a|
  {
    if |a| == 0 {
      assert a + b == b;
    } else {
      assert (a + b)[1..] == a[1..] + b;
      Utf8Append(a[1..], b);
    }
  }

  lemma Utf8IsHomomorphic()
    ensures Homomorphic(Utf8)
  {
    forall a: seq<char>, b: seq<char> ensures Utf8(a + b) == Utf8(a) + Utf8(b) {
      Utf8Append(a, b);
    }
  }

  const AbcDelims: set<char> := {'a', 'A'}

  lemma AbcJudge(policy: Resume)
    ensures Delimiters(Ascii, "abc") == AbcDelims
    ensures Advances(3, Judge(Ascii, "abc", policy))
  {
    assert Ascii.toUpper('a') == 'A' && Ascii.toLower('a') == 'a';
    JudgeAdvances(Ascii, "abc", policy);
  }

  lemma OverlapAsWritten()
    ensures Reference(Job(Ascii, "abc", "123", WhereLeft), "***ababc***") == "***ababc***"
  {
    var h := "***ababc***";
    var judge := Judge(Ascii, "abc", WhereLeft);
    AbcJudge(WhereLeft);
    assert NextDelimiter(h, AbcDelims, 0) == Some(3);
    assert h[3..6] == "aba";
    assert CompareSequence(Ascii, "aba", "abc", 0) == Mismatch(2);
    assert ScanStep(h, AbcDelims, 3, judge, 0) == Continue(6);
    assert NextDelimiter(h, AbcDelims, 6) == None;
    assert FindFrom(h, AbcDelims, 3, judge, 6) == NoDelimiter;
    assert FindFrom(h, AbcDelims, 3, judge, 0) == NoDelimiter;
  }

  /** A text without a delimiter comes through unchanged. */
  lemma Untouched(j: Job, t: seq<char>)
    requires 1 <= |j.oldValue| && forall i :: 0 <= i < |t| ==> t[i] !in Delimiters(j.casing, j.oldValue)
    ensures Reference(j, t) == t
  {
    JudgeAdvances(j.casing, j.oldValue, j.policy);
    NextDelimiterIsFirst(t, Delimiters(j.casing, j.oldValue), 0);
  }

  /** A case mapping with the titlecase letter U+01C5 'ǅ', whose upper case
      is U+01C4 'Ǆ' and whose lower case is U+01C6 'ǆ', as in the invariant
      culture; ASCII otherwise. */
  function TitleUpper(c: char): char { if c == '\U{01C5}' || c == '\U{01C6}' then '\U{01C4}' else AsciiUpper(c) }
  function TitleLower(c: char): char { if c == '\U{01C4}' || c == '\U{01C5}' then '\U{01C6}' else AsciiLower(c) }
  const Title := Casing(TitleUpper, TitleLower)

  /** The term "ǅa". */
  const TitleA: seq<char> := ['\U{01C5}', 'a']

  /** As written, a term that begins with a titlecase letter is never found
      where it occurs exactly: the delimiters are its lower and upper case,
      and the titlecase letter is neither. */
  lemma TitlecaseMissed(policy: Resume, bufferLength: int, rented: seq<char>)
    requires bufferLength <= |rented| && 4 <= |rented|
    ensures Matches(Title, TitleA, TitleA)
    ensures !CoversFirst(Title, TitleA, Delimiters(Title, TitleA))
    ensures StreamReaderReplace(Job(Title, TitleA, "x", policy), bufferLength, rented, TitleA) == Success(TitleA)
  {
    var j := Job(Title, TitleA, "x", policy);
    assert Delimiters(Title, TitleA) == {'\U{01C6}', '\U{01C4}'};
    assert Compare(Title, TitleA[0], TitleA[0]);
    Untouched(j, TitleA);
  }

  /** The three forms of the titlecase letter. */
  const TitleDelims: set<char> := {'\U{01C4}', '\U{01C5}', '\U{01C6}'}

  /** With every form of the first letter as a delimiter, the corrected
      scanner finds the term at the start. */
  lemma TitlecaseCorrected()
    ensures CoversFirst(Title, TitleA, TitleDelims)
    ensures FindCandidate(Title, TitleA, TitleA, TitleDelims, AfterCandidateStart) == Candidate(true, [], 2)
  {
    assert CoversFirst(Title, TitleA, TitleDelims);
    assert TitleA[0..2] == TitleA && MatchAt(Title, TitleA, TitleA, 0);
    CorrectedFindsEveryMatch(Title, TitleA, TitleA, TitleDelims);
  }

  /** Under ASCII casing the delimiters cover the first letter in every
      case, so the corrected scanner misses no match. */
  lemma AsciiDelimitersCover(oldValue: seq<char>)
    requires 1 <= |oldValue|
    ensures CoversFirst(Ascii, oldValue, Delimiters(Ascii, oldValue))
  {
  }

  /** The replacement at the scan's first hit, and the rest replaced after it. */
  lemma ReplacedAt(j: Job, h: seq<char>, s: nat)
    requires 1 <= |j.oldValue| && s + |j.oldValue| <= |h|
    requires Advances(|j.oldValue|, Judge(j.casing, j.oldValue, j.policy))
    requires FindFrom(h, Delimiters(j.casing, j.oldValue), |j.oldValue|, Judge(j.casing, j.oldValue, j.policy), 0) == Found(s, s + |j.oldValue|)
    ensures Reference(j, h) == h[..s] + j.newValue + Reference(j, h[s + |j.oldValue|..])
  {
    hide Judge, FindFrom, Delimiters, CharScanner.CompareSequence;
  }

  lemma OverlapCorrectedHit()
    ensures Advances(3, Judge(Ascii, "abc", AfterCandidateStart))
    ensures FindFrom("***ababc***", AbcDelims, 3, Judge(Ascii, "abc", AfterCandidateStart), 0) == Found(5, 8)
  {
    var h := "***ababc***";
    var judge := Judge(Ascii, "abc", AfterCandidateStart);
    AbcJudge(AfterCandidateStart);
    assert NextDelimiter(h, AbcDelims, 0) == Some(3);
    assert h[3..6] == "aba";
    assert CompareSequence(Ascii, "aba", "abc", 0) == Mismatch(2);
    assert ScanStep(h, AbcDelims, 3, judge, 0) == Continue(4);
    assert NextDelimiter(h, AbcDelims, 4) == Some(5);
    assert h[5..8] == "abc";
    assert CompareSequence(Ascii, "abc", "abc", 0) == Matched;
    assert ScanStep(h, AbcDelims, 3, judge, 4) == Stop(Found(5, 8));
  }

  lemma OverlapCorrected()
    ensures Reference(Job(Ascii, "abc", "123", AfterCandidateStart), "***ababc***") == "***ab123***"
  {
    hide Reference, FindFrom, Judge, Delimiters, ReplaceAll;
    var j := Job(Ascii, "abc", "123", AfterCandidateStart);
    var h := "***ababc***";
    AbcJudge(AfterCandidateStart);
    OverlapCorrectedHit();
    ReplacedAt(j, h, 5);
    assert h[8..] == "***";
    Untouched(j, "***");
  }

  function AsciiBytes(s: seq<char>): seq<byte>
    requires forall i :: 0 <= i < |s| ==> s[i] as int < 0x80
  {
    seq(|s|, i requires 0 <= i < |s| => s[i] as int as byte)
  }

  lemma {:induction false} AsciiUtf8(s: seq<char>)
    requires forall i :: 0 <= i < |s| ==> s[i] as int < 0x80
    ensures Utf8(s) == AsciiBytes(s)
    decreases |s|
  {
    if |s| > 0 {
      AsciiUtf8(s[1..]);
      OneByte(s[0]);
    }
  }

  function StarChars(n: nat): seq<char> {
    seq(n, _ => '*')
  }

  function Stars(n: nat): seq<byte> {
    seq(n, _ => 42)
  }

  lemma StarsUtf8(n: nat)
    ensures Utf8(StarChars(n)) == Stars(n)
  {
    AsciiUtf8(StarChars(n));
  }

  /** A leading stretch without delimiters is copied through. */
  lemma SkipPrefix<T(!new)>(x: seq<T>, y: seq<T>, delims: set<T>, width: nat, judge: seq<T> -> Verdict, replacement: seq<T>)
    requires 1 <= width && Advances(width, judge)
    requires forall i :: 0 <= i < |x| ==> x[i] !in delims
    ensures ReplaceAll(x + y, delims, width, judge, replacement) == x + ReplaceAll(y, delims, width, judge, replacement)
  {
    var h := x + y;
    assert forall i :: 0 <= i < |x| ==> h[i] == x[i];
    SkipNonDelimiters(h, delims, width, judge, 0, |x|);
    FindShift(x, y, delims, width, judge, |x|);
    ReplaceAllShifted(x, y, delims, width, judge, replacement);
  }

  /** A leading window the judge accepts is replaced. */
  lemma MatchPrefix<T(!new)>(w: seq<T>, y: seq<T>, delims: set<T>, width: nat, judge: seq<T> -> Verdict, replacement: seq<T>)
    requires 1 <= width && Advances(width, judge)
    requires |w| == width && w[0] in delims && judge(w) == Accept
    ensures ReplaceAll(w + y, delims, width, judge, replacement) == replacement + ReplaceAll(y, delims, width, judge, replacement)
  {
    var h := w + y;
    assert h[0] == w[0] && h[..width] == w && h[0..width] == w && h[width..] == y;
    assert NextDelimiter(h, delims, 0) == Some(0);
    assert ScanStep(h, delims, width, judge, 0) == Stop(Found(0, width));
    ReplaceAllStep(h, delims, width, judge, replacement, 0, width);
  }

  lemma AbcAccepts(policy: Resume)
    ensures Judge(Ascii, "abc", policy)("abc") == Accept
    ensures Judge(Ascii, "abc", policy)("ABC") == Accept
    ensures Judge(Ascii, "abc", policy)("Abc") == Accept
    ensures Judge(Ascii, "abc", policy)("AbC") == Accept
  {
    assert CompareSequence(Ascii, "abc", "abc", 0) == Matched;
    assert CompareSequence(Ascii, "ABC", "abc", 0) == Matched;
    assert CompareSequence(Ascii, "Abc", "abc", 0) == Matched;
    assert CompareSequence(Ascii, "AbC", "abc", 0) == Matched;
  }

  /** Reference(j, h) is the scan loop with the "abc" delimiters. */
  lemma AbcReference(newValue: seq<char>, policy: Resume, h: seq<char>)
    ensures Advances(3, Judge(Ascii, "abc", policy))
    ensures Reference(Job(Ascii, "abc", newValue, policy), h) == ReplaceAll(h, AbcDelims, 3, Judge(Ascii, "abc", policy), newValue)
  {
    AbcJudge(policy);
  }

  lemma StarsUntouched(newValue: seq<char>)
    ensures ReplaceAll("***", AbcDelims, 3, Judge(Ascii, "abc", WhereLeft), newValue) == "***"
  {
    var judge := Judge(Ascii, "abc", WhereLeft);
    AbcReference(newValue, WhereLeft, []);
    hide Judge, Reference;
    assert "***" == "***" + [];
    SkipPrefix("***", [], AbcDelims, 3, judge, newValue);
    ReplaceAllShort([], AbcDelims, 3, judge, newValue);
  }

  lemma StarsAbcStars(newValue: seq<char>)
    ensures Reference(Job(Ascii, "abc", newValue, WhereLeft), "***abc***") == "***" + newValue + "***"
  {
    var judge := Judge(Ascii, "abc", WhereLeft);
    AbcReference(newValue, WhereLeft, "***abc***");
    AbcAccepts(WhereLeft);
    StarsUntouched(newValue);
    hide Judge, Delimiters, Reference, ReplaceAll;
    assert "***abc***" == "***" + ("abc" + "***");
    SkipPrefix("***", "abc" + "***", AbcDelims, 3, judge, newValue);
    MatchPrefix("abc", "***", AbcDelims, 3, judge, newValue);
  }

  /** `ShorterNewValue`: "abc" replaced by the shorter "1", through the
      character loop of `UsingStreamReader` and through `UsingPipes`, whose
      pipe receives the UTF-8 encoding. */
  lemma ShorterNewValue(bufferLength: int, rented: seq<char>)
    requires bufferLength <= |rented| && 6 <= |rented|
    ensures StreamReaderReplace(Job(Ascii, "abc", "1", WhereLeft), bufferLength, rented, "***abc***") == Success("***1***")
    ensures PipesReadIntoStream(Job(Ascii, "abc", "1", WhereLeft), Utf8, bufferLength, rented, "***abc***") == Success(Utf8("***1***"))
  {
    StarsAbcStars("1");
    Utf8IsHomomorphic();
    hide Reference, StreamReaderReplace, PipesReadIntoStream;
    assert "***" + "1" + "***" == "***1***";
  }

  /** `LongerNewValue`: "abc" replaced by the longer "1234", through both
      character loops. */
  lemma LongerNewValue(bufferLength: int, rented: seq<char>)
    requires bufferLength <= |rented| && 6 <= |rented|
    ensures StreamReaderReplace(Job(Ascii, "abc", "1234", WhereLeft), bufferLength, rented, "***abc***") == Success("***1234***")
    ensures PipesReadIntoStream(Job(Ascii, "abc", "1234", WhereLeft), Utf8, bufferLength, rented, "***abc***") == Success(Utf8("***1234***"))
  {
    StarsAbcStars("1234");
    Utf8IsHomomorphic();
    hide Reference, StreamReaderReplace, PipesReadIntoStream;
    assert "***" + "1234" + "***" == "***1234***";
  }

  /** A leading window the judge rejects, leaving the reader `|x|` into it. */
  lemma RejectPrefix<T(!new)>(x: seq<T>, y: seq<T>, delims: set<T>, width: nat, judge: seq<T> -> Verdict, replacement: seq<T>)
    requires 1 <= width && Advances(width, judge)
    requires 1 <= |x| && x[0] in delims && width <= |x| + |y| && judge((x + y)[..width]) == Reject(|x|)
    ensures ReplaceAll(x + y, delims, width, judge, replacement) == x + ReplaceAll(y, delims, width, judge, replacement)
  {
    var h := x + y;
    assert h[0] == x[0] && h[0..width] == h[..width];
    assert NextDelimiter(h, delims, 0) == Some(0);
    assert ScanStep(h, delims, width, judge, 0) == Continue(|x|);
    FindShift(x, y, delims, width, judge, |x|);
    ReplaceAllShifted(x, y, delims, width, judge, replacement);
  }

  const WorldDelims: set<char> := {'w', 'W'}

  lemma WorldJudge()
    ensures Delimiters(Ascii, "World") == WorldDelims
    ensures Advances(5, Judge(Ascii, "World", WhereLeft))
    ensures Judge(Ascii, "World", WhereLeft)("World") == Accept
    ensures Judge(Ascii, "World", WhereLeft)("world") == Accept
    ensures Judge(Ascii, "World", WhereLeft)("w are") == Reject(2)
  {
    assert Ascii.toUpper('W') == 'W' && Ascii.toLower('W') == 'w';
    JudgeAdvances(Ascii, "World", WhereLeft);
    assert CompareSequence(Ascii, "World", "World", 0) == Matched;
    assert CompareSequence(Ascii, "world", "World", 0) == Matched;
    assert CompareSequence(Ascii, "w are", "World", 0) == Mismatch(1);
  }

  lemma WorldReference(h: seq<char>)
    ensures Reference(Job(Ascii, "World", "Galaxy", WhereLeft), h) == ReplaceAll(h, WorldDelims, 5, Judge(Ascii, "World", WhereLeft), "Galaxy")
  {
    WorldJudge();
  }

  /** The second half of `BaseLineTest`'s input, from the word after "how",
      cut where the scan stops. */
  const SecondHalf := "are you doing? This " + "world" + " is Fine.\n" + "World" + "s can be very nice, you kno" + "w."

  /** The input of `BaseLineTest`. */
  const Greeting := "Hello " + "World" + ", ho" + "w " + SecondHalf

  /** What `BaseLineTest` expects, cut the same way. */
  const Galaxies := "Hello " + "Galaxy" + ", ho" + "w " + "are you doing? This " + "Galaxy" + " is Fine.\n" + "Galaxy" + "s can be very nice, you kno" + "w."

  lemma SecondHalfToGalaxy()
    ensures ReplaceAll(SecondHalf, WorldDelims, 5, Judge(Ascii, "World", WhereLeft), "Galaxy")
            == "are you doing? This " + "Galaxy" + " is Fine.\n" + "Galaxy" + "s can be very nice, you kno" + "w."
  {
    var judge := Judge(Ascii, "World", WhereLeft);
    var g := "Galaxy";
    WorldJudge();
    hide Judge, Delimiters, ReplaceAll;
    var t9 := "s can be very nice, you kno" + "w.";
    var t8 := "World" + t9;
    var t7 := " is Fine.\n" + t8;
    var t6 := "world" + t7;
    assert SecondHalf == "are you doing? This " + t6;
    SkipPrefix("are you doing? This ", t6, WorldDelims, 5, judge, g);
    MatchPrefix("world", t7, WorldDelims, 5, judge, g);
    SkipPrefix(" is Fine.\n", t8, WorldDelims, 5, judge, g);
    MatchPrefix("World", t9, WorldDelims, 5, judge, g);
    SkipPrefix("s can be very nice, you kno", "w.", WorldDelims, 5, judge, g);
    ReplaceAllShort("w.", WorldDelims, 5, judge, g);
  }

  lemma FirstHalfToGalaxy()
    ensures ReplaceAll(Greeting, WorldDelims, 5, Judge(Ascii, "World", WhereLeft), "Galaxy")
            == "Hello " + "Galaxy" + ", ho" + "w " + ReplaceAll(SecondHalf, WorldDelims, 5, Judge(Ascii, "World", WhereLeft), "Galaxy")
  {
    var judge := Judge(Ascii, "World", WhereLeft);
    var g := "Galaxy";
    WorldJudge();
    hide Judge, Delimiters, ReplaceAll;
    var t4 := "w " + SecondHalf;
    var t3 := ", ho" + t4;
    var t2 := "World" + t3;
    assert Greeting == "Hello " + t2;
    SkipPrefix("Hello ", t2, WorldDelims, 5, judge, g);
    MatchPrefix("World", t3, WorldDelims, 5, judge, g);
    SkipPrefix(", ho", t4, WorldDelims, 5, judge, g);
    assert t4[..5] == "w are";
    RejectPrefix("w ", SecondHalf, WorldDelims, 5, judge, g);
  }

  /** `BaseLineTest`: every "World", whatever its case, becomes "Galaxy"; the
      "w" of "how" and the one of "know" start no match. */
  lemma WorldToGalaxy()
    ensures Reference(Job(Ascii, "World", "Galaxy", WhereLeft), Greeting) == Galaxies
  {
    WorldReference(Greeting);
    FirstHalfToGalaxy();
    SecondHalfToGalaxy();
    hide Judge, Delimiters, ReplaceAll, Reference;
  }

  /** `BaseLineTest` through the character loop of `UsingStreamReader` and
      through `UsingPipes`. */
  lemma BaseLine(bufferLength: int, rented: seq<char>)
    requires bufferLength <= |rented| && 10 <= |rented|
    ensures StreamReaderReplace(Job(Ascii, "World", "Galaxy", WhereLeft), bufferLength, rented, Greeting) == Success(Galaxies)
    ensures PipesReadIntoStream(Job(Ascii, "World", "Galaxy", WhereLeft), Utf8, bufferLength, rented, Greeting) == Success(Utf8(Galaxies))
  {
    WorldToGalaxy();
    Utf8IsHomomorphic();
    hide Reference, StreamReaderReplace, PipesReadIntoStream, Greeting, Galaxies;
  }

  const Abc123 := Job(Ascii, "abc", "123", WhereLeft)

  lemma AbcEmpty()
    ensures Reference(Abc123, "") == ""
  {
    AbcReference("123", WhereLeft, "");
    hide Judge, Delimiters, Reference;
    ReplaceAllShort([], AbcDelims, 3, Judge(Ascii, "abc", WhereLeft), "123");
  }

  lemma AbcSingle()
    ensures Reference(Abc123, "abc") == "123"
  {
    var judge := Judge(Ascii, "abc", WhereLeft);
    AbcReference("123", WhereLeft, "abc");
    AbcAccepts(WhereLeft);
    hide Judge, Delimiters, Reference, ReplaceAll;
    ReplaceAllShort([], AbcDelims, 3, judge, "123");
    assert "abc" == "abc" + [];
    MatchPrefix("abc", [], AbcDelims, 3, judge, "123");
  }

  lemma AbcMixedCase()
    ensures Reference(Abc123, "ABCabcAbcAbC") == "123123123123"
  {
    var judge := Judge(Ascii, "abc", WhereLeft);
    var n := "123";
    AbcReference(n, WhereLeft, "ABCabcAbcAbC");
    AbcAccepts(WhereLeft);
    hide Judge, Delimiters, Reference, ReplaceAll;
    ReplaceAllShort([], AbcDelims, 3, judge, n);
    assert "ABCabcAbcAbC" == "ABC" + ("abc" + ("Abc" + ("AbC" + [])));
    MatchPrefix("AbC", [], AbcDelims, 3, judge, n);
    MatchPrefix("Abc", "AbC" + [], AbcDelims, 3, judge, n);
    MatchPrefix("abc", "Abc" + ("AbC" + []), AbcDelims, 3, judge, n);
    MatchPrefix("ABC", "abc" + ("Abc" + ("AbC" + [])), AbcDelims, 3, judge, n);
  }

  lemma AbcMultiByte()
    ensures Reference(Abc123, "abc€") == "123€"
  {
    var judge := Judge(Ascii, "abc", WhereLeft);
    var n := "123";
    AbcReference(n, WhereLeft, "abc€");
    AbcAccepts(WhereLeft);
    hide Judge, Delimiters, Reference, ReplaceAll;
    ReplaceAllShort([], AbcDelims, 3, judge, n);
    assert "abc€" == "abc" + ("€" + []);
    MatchPrefix("abc", "€" + [], AbcDelims, 3, judge, n);
    SkipPrefix("€", [], AbcDelims, 3, judge, n);
  }

  /** The tests of `UsingPipes` that hold: the empty input, a single match,
      matches in every mix of case, and a match followed by a three-byte
      character.  The pipe receives the UTF-8 encoding of the replaced text. */
  lemma PipesExamples(bufferLength: int, rented: seq<char>)
    requires bufferLength <= |rented| && 6 <= |rented|
    ensures PipesReadIntoStream(Abc123, Utf8, bufferLength, rented, "") == Success([])
    ensures PipesReadIntoStream(Abc123, Utf8, bufferLength, rented, "abc") == Success(Utf8("123"))
    ensures PipesReadIntoStream(Abc123, Utf8, bufferLength, rented, "ABCabcAbcAbC") == Success(Utf8("123123123123"))
    ensures PipesReadIntoStream(Abc123, Utf8, bufferLength, rented, "abc€") == Success(Utf8("123€"))
  {
    AbcEmpty();
    AbcSingle();
    AbcMixedCase();
    AbcMultiByte();
    Utf8IsHomomorphic();
    hide Reference, PipesReadIntoStream;
  }

  /** `TestPipes` case "***ababc***": the repository's scanner writes the
      input back unchanged, where the test expects "***ab123***". */
  lemma PipesOverlapAsWritten(bufferLength: int, rented: seq<char>)
    requires bufferLength <= |rented| && 6 <= |rented|
    ensures PipesReadIntoStream(Abc123, Utf8, bufferLength, rented, "***ababc***") == Success(Utf8("***ababc***"))
  {
    OverlapAsWritten();
    Utf8IsHomomorphic();
    hide Reference, PipesReadIntoStream;
  }

  /** With the corrected resume policy the pipe receives what the test expects. */
  lemma PipesOverlapCorrected(bufferLength: int, rented: seq<char>)
    requires bufferLength <= |rented| && 6 <= |rented|
    ensures PipesReadIntoStream(Job(Ascii, "abc", "123", AfterCandidateStart), Utf8, bufferLength, rented, "***ababc***") == Success(Utf8("***ab123***"))
  {
    OverlapCorrected();
    Utf8IsHomomorphic();
    hide Reference, PipesReadIntoStream;
  }

  const RawAbc := RawByteStream.Pattern([65, 66, 67], [97, 98, 99])
  const RawDelims: set<byte> := {97, 65}
  const Lower: seq<byte> := [97, 98, 99]
  const Digits: seq<byte> := [49, 50, 51]

  lemma AsciiWords()
    ensures Utf8("abc") == Lower && Utf8("123") == Digits
    ensures Utf8("ABC") == [65, 66, 67] && Utf8("Abc") == [65, 98, 99] && Utf8("AbC") == [65, 98, 67]
  {
    AsciiUtf8("abc");
    AsciiUtf8("123");
    AsciiUtf8("ABC");
    AsciiUtf8("Abc");
    AsciiUtf8("AbC");
  }

  /** The raw pattern of "abc", and the scan loop it runs. */
  lemma RawReference(policy: Resume, newBytes: seq<byte>, h: seq<byte>)
    ensures RawByteStream.Usable(RawAbc) && RawByteStream.Delimiters(RawAbc) == RawDelims
    ensures Advances(3, RawByteStream.Judge(RawAbc, policy))
    ensures RawByteStream.Reference(RawAbc, policy, newBytes, h) == ReplaceAll(h, RawDelims, 3, RawByteStream.Judge(RawAbc, policy), newBytes)
  {
    RawByteStream.JudgeAdvances(RawAbc, policy);
  }

  lemma RawAccepts(policy: Resume)
    ensures RawByteStream.Judge(RawAbc, policy)(Lower) == Accept
    ensures RawByteStream.Judge(RawAbc, policy)([65, 66, 67]) == Accept
    ensures RawByteStream.Judge(RawAbc, policy)([65, 98, 99]) == Accept
    ensures RawByteStream.Judge(RawAbc, policy)([65, 98, 67]) == Accept
  {
    assert RawByteStream.CompareSequence(RawAbc, Lower, 1) == None;
    assert RawByteStream.CompareSequence(RawAbc, [65, 66, 67], 1) == None;
    assert RawByteStream.CompareSequence(RawAbc, [65, 98, 99], 1) == None;
    assert RawByteStream.CompareSequence(RawAbc, [65, 98, 67], 1) == None;
  }

  lemma StarsSkipped(n: nat, y: seq<byte>, policy: Resume)
    requires Advances(3, RawByteStream.Judge(RawAbc, policy))
    ensures ReplaceAll(Stars(n) + y, RawDelims, 3, RawByteStream.Judge(RawAbc, policy), Digits)
            == Stars(n) + ReplaceAll(y, RawDelims, 3, RawByteStream.Judge(RawAbc, policy), Digits)
  {
    SkipPrefix(Stars(n), y, RawDelims, 3, RawByteStream.Judge(RawAbc, policy), Digits);
  }

  /** The encoding of six pieces is the six encodings. */
  lemma Utf8Six(a: seq<char>, b: seq<char>, c: seq<char>, d: seq<char>, e: seq<char>, f: seq<char>)
    ensures Utf8(a + (b + (c + (d + (e + f))))) == Utf8(a) + (Utf8(b) + (Utf8(c) + (Utf8(d) + (Utf8(e) + Utf8(f)))))
  {
    Utf8Append(e, f);
    Utf8Append(d, e + f);
    Utf8Append(c, d + (e + f));
    Utf8Append(b, c + (d + (e + f)));
    Utf8Append(a, b + (c + (d + (e + f))));
  }

  /** The bytes of the `UsingRawByteStream` test with matches at both ends
      and side by side. */
  lemma RunsBytes()
    ensures Utf8("abc**********abcabc**********abc") == Lower + (Stars(10) + (Lower + (Lower + (Stars(10) + Lower))))
  {
    var stars := "**********";
    assert stars == StarChars(10);
    assert "abc**********abcabc**********abc" == "abc" + (stars + ("abc" + ("abc" + (stars + "abc"))));
    StarsUtf8(10);
    AsciiWords();
    Utf8Six("abc", stars, "abc", "abc", stars, "abc");
    hide Utf8;
  }

  lemma RunsReplacedBytes()
    ensures Utf8("123**********123123**********123") == Digits + (Stars(10) + (Digits + (Digits + (Stars(10) + Digits))))
  {
    var stars := "**********";
    assert stars == StarChars(10);
    assert "123**********123123**********123" == "123" + (stars + ("123" + ("123" + (stars + "123"))));
    StarsUtf8(10);
    AsciiWords();
    Utf8Six("123", stars, "123", "123", stars, "123");
    hide Utf8;
  }

  /** One "abc", a run of stars, and what follows. */
  lemma AbcThenStars(policy: Resume, y: seq<byte>)
    ensures Advances(3, RawByteStream.Judge(RawAbc, policy))
    ensures ReplaceAll(Lower + (Stars(10) + y), RawDelims, 3, RawByteStream.Judge(RawAbc, policy), Digits)
            == Digits + (Stars(10) + ReplaceAll(y, RawDelims, 3, RawByteStream.Judge(RawAbc, policy), Digits))
  {
    var judge := RawByteStream.Judge(RawAbc, policy);
    RawReference(policy, Digits, []);
    RawAccepts(policy);
    hide RawByteStream.Judge, ReplaceAll;
    MatchPrefix(Lower, Stars(10) + y, RawDelims, 3, judge, Digits);
    StarsSkipped(10, y, policy);
  }

  lemma RunsReplaced(policy: Resume)
    ensures RawByteStream.Reference(RawAbc, policy, Digits, Lower + (Stars(10) + (Lower + (Lower + (Stars(10) + Lower)))))
            == Digits + (Stars(10) + (Digits + (Digits + (Stars(10) + Digits))))
  {
    var judge := RawByteStream.Judge(RawAbc, policy);
    RawReference(policy, Digits, Lower + (Stars(10) + (Lower + (Lower + (Stars(10) + Lower)))));
    RawAccepts(policy);
    AbcThenStars(policy, Lower + (Lower + (Stars(10) + Lower)));
    AbcThenStars(policy, Lower);
    hide RawByteStream.Judge, RawByteStream.Reference, ReplaceAll;
    ReplaceAllShort([], RawDelims, 3, judge, Digits);
    assert Lower == Lower + [];
    MatchPrefix(Lower, [], RawDelims, 3, judge, Digits);
    MatchPrefix(Lower, Lower + (Stars(10) + Lower), RawDelims, 3, judge, Digits);
  }

  /** The call the `UsingRawByteStream` tests make: "abc" to "123" with a
      16-byte buffer. */
  function RawTest(policy: Resume, rented: seq<byte>, chunks: seq<seq<byte>>): Result<seq<byte>>
    requires 16 <= |rented| && RawByteStream.NonEmptyChunks(chunks)
  {
    AbcEncodings();
    RawByteStream.Replace(Ascii, Utf8, "abc", "123", policy, 16, rented, chunks)
  }

  /** The test call writes the one-block replacement of the whole stream
      with the raw pattern of "abc". */
  lemma RawTestIsReference(policy: Resume, rented: seq<byte>, chunks: seq<seq<byte>>)
    requires 16 <= |rented| && RawByteStream.NonEmptyChunks(chunks)
    ensures RawTest(policy, rented, chunks) == Success(RawByteStream.Reference(RawAbc, policy, Digits, Flatten(chunks)))
  {
    AbcEncodings();
    AsciiWords();
  }

  /** `UsingRawByteStream`, 16-byte buffer: matches at both ends of the input
      and side by side are all replaced, however the stream splits the input
      into reads. */
  lemma RawRuns(rented: seq<byte>, chunks: seq<seq<byte>>)
    requires 16 <= |rented| && RawByteStream.NonEmptyChunks(chunks)
    requires Flatten(chunks) == Utf8("abc**********abcabc**********abc")
    ensures RawTest(WhereLeft, rented, chunks) == Success(Utf8("123**********123123**********123"))
  {
    RawTestIsReference(WhereLeft, rented, chunks);
    RunsBytes();
    RunsReplacedBytes();
    RunsReplaced(WhereLeft);
    hide RawTest, RawByteStream.Reference, Utf8;
  }

  lemma StarsBytes()
    ensures Utf8("**************abc*****") == Stars(14) + (Lower + Stars(5))
    ensures Utf8("**************123*****") == Stars(14) + (Digits + Stars(5))
  {
    var s14, s5 := "**************", "*****";
    assert s14 == StarChars(14) && s5 == StarChars(5);
    assert "**************abc*****" == s14 + ("abc" + s5);
    assert "**************123*****" == s14 + ("123" + s5);
    StarsUtf8(14);
    StarsUtf8(5);
    AsciiWords();
    Utf8Append("abc", s5);
    Utf8Append(s14, "abc" + s5);
    Utf8Append("123", s5);
    Utf8Append(s14, "123" + s5);
    hide Utf8;
  }

  lemma StarsReplaced(policy: Resume)
    ensures RawByteStream.Reference(RawAbc, policy, Digits, Stars(14) + (Lower + Stars(5))) == Stars(14) + (Digits + Stars(5))
  {
    var judge := RawByteStream.Judge(RawAbc, policy);
    RawReference(policy, Digits, Stars(14) + (Lower + Stars(5)));
    RawAccepts(policy);
    hide RawByteStream.Judge, RawByteStream.Reference, ReplaceAll;
    StarsSkipped(14, Lower + Stars(5), policy);
    MatchPrefix(Lower, Stars(5), RawDelims, 3, judge, Digits);
    ReplaceAllShort([], RawDelims, 3, judge, Digits);
    assert Stars(5) == Stars(5) + [];
    StarsSkipped(5, [], policy);
  }

  /** `UsingRawByteStream`: a match after more stars than the buffer holds. */
  lemma RawStars(rented: seq<byte>, chunks: seq<seq<byte>>)
    requires 16 <= |rented| && RawByteStream.NonEmptyChunks(chunks)
    requires Flatten(chunks) == Utf8("**************abc*****")
    ensures RawTest(WhereLeft, rented, chunks) == Success(Utf8("**************123*****"))
  {
    RawTestIsReference(WhereLeft, rented, chunks);
    StarsBytes();
    StarsReplaced(WhereLeft);
    hide RawTest, RawByteStream.Reference, Utf8;
  }

  /** The call `ShorterNewValue` and `LongerNewValue` make of
      `UsingRawByteStream`: "abc" to `newValue` with a 16-byte buffer. */
  function RawAbcTo(newValue: seq<char>, rented: seq<byte>, chunks: seq<seq<byte>>): Result<seq<byte>>
    requires 16 <= |rented| && RawByteStream.NonEmptyChunks(chunks)
  {
    AbcEncodings();
    RawByteStream.Replace(Ascii, Utf8, "abc", newValue, WhereLeft, 16, rented, chunks)
  }

  lemma RawAbcToIsReference(newValue: seq<char>, rented: seq<byte>, chunks: seq<seq<byte>>)
    requires 16 <= |rented| && RawByteStream.NonEmptyChunks(chunks)
    ensures RawAbcTo(newValue, rented, chunks) == Success(RawByteStream.Reference(RawAbc, WhereLeft, Utf8(newValue), Flatten(chunks)))
  {
    AbcEncodings();
  }

  const ThreeStars: seq<byte> := [42, 42, 42]

  /** The bytes of "***abc***" with the match replaced by any bytes. */
  lemma StarsAbcStarsBytes(newBytes: seq<byte>)
    ensures RawByteStream.Reference(RawAbc, WhereLeft, newBytes, ThreeStars + (Lower + ThreeStars)) == ThreeStars + (newBytes + ThreeStars)
  {
    var judge := RawByteStream.Judge(RawAbc, WhereLeft);
    RawReference(WhereLeft, newBytes, ThreeStars + (Lower + ThreeStars));
    RawAccepts(WhereLeft);
    hide RawByteStream.Judge, RawByteStream.Reference, ReplaceAll;
    SkipPrefix(ThreeStars, Lower + ThreeStars, RawDelims, 3, judge, newBytes);
    MatchPrefix(Lower, ThreeStars, RawDelims, 3, judge, newBytes);
    assert ThreeStars == ThreeStars + [];
    SkipPrefix(ThreeStars, [], RawDelims, 3, judge, newBytes);
    ReplaceAllShort([], RawDelims, 3, judge, newBytes);
  }

  /** The encoding of text between two runs of three stars. */
  lemma StarsAround(t: seq<char>)
    ensures Utf8(StarChars(3) + (t + StarChars(3))) == ThreeStars + (Utf8(t) + ThreeStars)
  {
    StarsUtf8(3);
    assert Stars(3) == ThreeStars;
    Utf8Append(t, StarChars(3));
    Utf8Append(StarChars(3), t + StarChars(3));
  }

  lemma StarsAbcStarsUtf8(t: seq<char>, u: seq<char>)
    requires u == "***" + t + "***"
    ensures Utf8("***abc***") == ThreeStars + (Lower + ThreeStars)
    ensures Utf8(u) == ThreeStars + (Utf8(t) + ThreeStars)
  {
    assert StarChars(3) == "***";
    assert "***abc***" == StarChars(3) + ("abc" + StarChars(3));
    assert u == StarChars(3) + (t + StarChars(3));
    StarsAround("abc");
    StarsAround(t);
    AsciiWords();
  }

  /** `ShorterNewValue` through `UsingRawByteStream`. */
  lemma RawShorterNewValue(rented: seq<byte>, chunks: seq<seq<byte>>)
    requires 16 <= |rented| && RawByteStream.NonEmptyChunks(chunks)
    requires Flatten(chunks) == Utf8("***abc***")
    ensures RawAbcTo("1", rented, chunks) == Success(Utf8("***1***"))
  {
    hide RawAbcTo, RawByteStream.Reference, Utf8;
    RawAbcToIsReference("1", rented, chunks);
    StarsAbcStarsUtf8("1", "***1***");
    StarsAbcStarsBytes(Utf8("1"));
  }

  /** `LongerNewValue` through `UsingRawByteStream`. */
  lemma RawLongerNewValue(rented: seq<byte>, chunks: seq<seq<byte>>)
    requires 16 <= |rented| && RawByteStream.NonEmptyChunks(chunks)
    requires Flatten(chunks) == Utf8("***abc***")
    ensures RawAbcTo("1234", rented, chunks) == Success(Utf8("***1234***"))
  {
    hide RawAbcTo, RawByteStream.Reference, Utf8;
    RawAbcToIsReference("1234", rented, chunks);
    StarsAbcStarsUtf8("1234", "***1234***");
    StarsAbcStarsBytes(Utf8("1234"));
  }

  lemma MixedCaseBytes()
    ensures Utf8("ABCabcAbcAbC") == [65, 66, 67] + (Lower + ([65, 98, 99] + [65, 98, 67]))
    ensures Utf8("123123123123") == Digits + (Digits + (Digits + Digits))
  {
    assert "ABCabcAbcAbC" == "ABC" + ("abc" + ("Abc" + "AbC"));
    assert "123123123123" == "123" + ("123" + ("123" + "123"));
    AsciiWords();
    Utf8Append("Abc", "AbC");
    Utf8Append("abc", "Abc" + "AbC");
    Utf8Append("ABC", "abc" + ("Abc" + "AbC"));
    Utf8Append("123", "123");
    Utf8Append("123", "123" + "123");
    Utf8Append("123", "123" + ("123" + "123"));
    hide Utf8;
  }

  lemma MixedCaseReplaced(policy: Resume)
    ensures RawByteStream.Reference(RawAbc, policy, Digits, [65, 66, 67] + (Lower + ([65, 98, 99] + [65, 98, 67])))
            == Digits + (Digits + (Digits + Digits))
  {
    var judge := RawByteStream.Judge(RawAbc, policy);
    RawReference(policy, Digits, [65, 66, 67] + (Lower + ([65, 98, 99] + [65, 98, 67])));
    RawAccepts(policy);
    hide RawByteStream.Judge, RawByteStream.Reference, ReplaceAll;
    ReplaceAllShort([], RawDelims, 3, judge, Digits);
    assert [65, 98, 67] == [65, 98, 67] + [];
    MatchPrefix([65, 98, 67], [], RawDelims, 3, judge, Digits);
    MatchPrefix([65, 98, 99], [65, 98, 67], RawDelims, 3, judge, Digits);
    MatchPrefix(Lower, [65, 98, 99] + [65, 98, 67], RawDelims, 3, judge, Digits);
    MatchPrefix([65, 66, 67], Lower + ([65, 98, 99] + [65, 98, 67]), RawDelims, 3, judge, Digits);
  }

  /** `UsingRawByteStream`: matches in any mix of case. */
  lemma RawMixedCase(rented: seq<byte>, chunks: seq<seq<byte>>)
    requires 16 <= |rented| && RawByteStream.NonEmptyChunks(chunks)
    requires Flatten(chunks) == Utf8("ABCabcAbcAbC")
    ensures RawTest(WhereLeft, rented, chunks) == Success(Utf8("123123123123"))
  {
    RawTestIsReference(WhereLeft, rented, chunks);
    MixedCaseBytes();
    MixedCaseReplaced(WhereLeft);
    hide RawTest, RawByteStream.Reference, Utf8;
  }

  lemma EmptyReplaced(policy: Resume)
    ensures RawByteStream.Reference(RawAbc, policy, Digits, []) == []
  {
    var judge := RawByteStream.Judge(RawAbc, policy);
    RawReference(policy, Digits, []);
    hide RawByteStream.Judge, RawByteStream.Reference, ReplaceAll;
    ReplaceAllShort([], RawDelims, 3, judge, Digits);
  }

  lemma LowerReplaced(policy: Resume, tail: seq<byte>)
    requires tail == [] || tail == [0xE2, 0x82, 0xAC]
    ensures RawByteStream.Reference(RawAbc, policy, Digits, Lower + tail) == Digits + tail
  {
    var judge := RawByteStream.Judge(RawAbc, policy);
    RawReference(policy, Digits, Lower + tail);
    RawReference(policy, Digits, tail);
    RawAccepts(policy);
    EmptyReplaced(policy);
    hide RawByteStream.Judge, RawByteStream.Reference, ReplaceAll;
    MatchPrefix(Lower, tail, RawDelims, 3, judge, Digits);
    if tail != [] {
      assert tail == tail + [];
      SkipPrefix(tail, [], RawDelims, 3, judge, Digits);
    }
  }

  lemma ShortInputsReplaced(policy: Resume)
    ensures RawByteStream.Reference(RawAbc, policy, Digits, []) == []
    ensures RawByteStream.Reference(RawAbc, policy, Digits, Lower) == Digits
    ensures RawByteStream.Reference(RawAbc, policy, Digits, Lower + [0xE2, 0x82, 0xAC]) == Digits + [0xE2, 0x82, 0xAC]
  {
    hide RawByteStream.Reference;
    EmptyReplaced(policy);
    LowerReplaced(policy, []);
    LowerReplaced(policy, [0xE2, 0x82, 0xAC]);
    assert Lower + [] == Lower && Digits + [] == Digits;
  }

  /** `UsingRawByteStream`: the empty input. */
  lemma RawEmpty(rented: seq<byte>, chunks: seq<seq<byte>>)
    requires 16 <= |rented| && RawByteStream.NonEmptyChunks(chunks) && Flatten(chunks) == Utf8("")
    ensures RawTest(WhereLeft, rented, chunks) == Success(Utf8(""))
  {
    RawTestIsReference(WhereLeft, rented, chunks);
    ShortInputsReplaced(WhereLeft);
    assert Utf8("") == [];
    hide RawTest, RawByteStream.Reference, Utf8;
  }

  /** `UsingRawByteStream`: a single match. */
  lemma RawSingle(rented: seq<byte>, chunks: seq<seq<byte>>)
    requires 16 <= |rented| && RawByteStream.NonEmptyChunks(chunks) && Flatten(chunks) == Utf8("abc")
    ensures RawTest(WhereLeft, rented, chunks) == Success(Utf8("123"))
  {
    RawTestIsReference(WhereLeft, rented, chunks);
    AsciiWords();
    ShortInputsReplaced(WhereLeft);
    hide RawTest, RawByteStream.Reference, Utf8;
  }

  /** `UsingRawByteStream`: a match followed by a three-byte character. */
  lemma RawMultiByte(rented: seq<byte>, chunks: seq<seq<byte>>)
    requires 16 <= |rented| && RawByteStream.NonEmptyChunks(chunks) && Flatten(chunks) == Utf8("abc€")
    ensures RawTest(WhereLeft, rented, chunks) == Success(Utf8("123€"))
  {
    hide RawTest, RawByteStream.Reference, Utf8;
    RawTestIsReference(WhereLeft, rented, chunks);
    Euro();
    ShortInputsReplaced(WhereLeft);
  }

  /** The raw pattern of "aab", and a stream "aaab" holding it one byte in. */
  const RawAab := RawByteStream.Pattern([65, 65, 66], [97, 97, 98])
  const Aaab: seq<byte> := [97, 97, 97, 98]

  lemma AabEncodings()
    ensures Utf8(UpperString(Ascii, "aab")) == [65, 65, 66]
    ensures Utf8(LowerString(Ascii, "aab")) == [97, 97, 98]
    ensures Utf8("aaab") == Aaab && Utf8("x") == [120] && Utf8("ax") == [97, 120]
  {
    assert Ascii.toUpper('a') == 'A' && Ascii.toUpper('b') == 'B';
    assert Ascii.toLower('a') == 'a' && Ascii.toLower('b') == 'b';
    var u, l := UpperString(Ascii, "aab"), LowerString(Ascii, "aab");
    assert u[0] == 'A' && u[1] == 'A' && u[2] == 'B';
    assert u == "AAB";
    assert l[0] == 'a' && l[1] == 'a' && l[2] == 'b';
    assert l == "aab";
    AsciiUtf8("AAB");
    AsciiUtf8("aab");
    AsciiUtf8("aaab");
    AsciiUtf8("x");
    AsciiUtf8("ax");
  }

  /** As written, the raw scanner rejects the window "aaa" at its third byte,
      goes on from there, finds only "ab" left and writes "aaab" back,
      although "aab" is spelled one byte in. */
  lemma RawOverlapAsWritten()
    ensures RawByteStream.Usable(RawAab) && RawByteStream.Spells(RawAab, Aaab[1..4])
    ensures RawByteStream.Reference(RawAab, WhereLeft, [120], Aaab) == Aaab
  {
    var judge := RawByteStream.Judge(RawAab, WhereLeft);
    RawByteStream.JudgeAdvances(RawAab, WhereLeft);
    assert RawByteStream.Delimiters(RawAab) == RawDelims;
    assert NextDelimiter(Aaab, RawDelims, 0) == Some(0);
    assert Aaab[0..3] == [97, 97, 97];
    assert RawByteStream.CompareSequence(RawAab, [97, 97, 97], 1) == Some(2);
    assert ScanStep(Aaab, RawDelims, 3, judge, 0) == Continue(2);
    assert NextDelimiter(Aaab, RawDelims, 2) == Some(2);
    assert ScanStep(Aaab, RawDelims, 3, judge, 2) == Stop(Short(2));
    assert FindFrom(Aaab, RawDelims, 3, judge, 0) == Short(2);
  }

  /** With the corrected policy the scanner goes on one byte after the
      candidate's first and replaces the match. */
  lemma RawOverlapCorrected()
    ensures RawByteStream.Usable(RawAab)
    ensures RawByteStream.Reference(RawAab, AfterCandidateStart, [120], Aaab) == [97, 120]
  {
    var judge := RawByteStream.Judge(RawAab, AfterCandidateStart);
    RawByteStream.JudgeAdvances(RawAab, AfterCandidateStart);
    assert RawByteStream.Delimiters(RawAab) == RawDelims;
    assert NextDelimiter(Aaab, RawDelims, 0) == Some(0);
    assert Aaab[0..3] == [97, 97, 97];
    assert RawByteStream.CompareSequence(RawAab, [97, 97, 97], 1) == Some(2);
    assert ScanStep(Aaab, RawDelims, 3, judge, 0) == Continue(1);
    assert NextDelimiter(Aaab, RawDelims, 1) == Some(1);
    assert Aaab[1..4] == [97, 97, 98];
    assert RawByteStream.CompareSequence(RawAab, [97, 97, 98], 1) == None;
    assert ScanStep(Aaab, RawDelims, 3, judge, 1) == Stop(Found(1, 4));
    assert FindFrom(Aaab, RawDelims, 3, judge, 0) == Found(1, 4);
    ReplaceAllShort([], RawDelims, 3, judge, [120]);
  }

  /** `UsingRawByteStream.Replace` of "aab" by "x". */
  function AabTest(policy: Resume, rented: seq<byte>, chunks: seq<seq<byte>>): Result<seq<byte>>
    requires 6 <= |rented| && RawByteStream.NonEmptyChunks(chunks)
  {
    AabEncodings();
    RawByteStream.Replace(Ascii, Utf8, "aab", "x", policy, 0, rented, chunks)
  }

  lemma AabTestIsReference(policy: Resume, rented: seq<byte>, chunks: seq<seq<byte>>)
    requires 6 <= |rented| && RawByteStream.NonEmptyChunks(chunks)
    ensures AabTest(policy, rented, chunks) == Success(RawByteStream.Reference(RawAab, policy, [120], Flatten(chunks)))
  {
    AabEncodings();
  }

  /** The same through the stream driver: the stream "aaab" is written back
      as it came as written, and as "ax" under the corrected policy. */
  lemma RawOverlapStream(rented: seq<byte>, chunks: seq<seq<byte>>)
    requires 6 <= |rented| && RawByteStream.NonEmptyChunks(chunks) && Flatten(chunks) == Utf8("aaab")
    ensures AabTest(WhereLeft, rented, chunks) == Success(Utf8("aaab"))
    ensures AabTest(AfterCandidateStart, rented, chunks) == Success(Utf8("ax"))
  {
    hide RawByteStream.Replace, RawByteStream.Reference, Utf8;
    AabTestIsReference(WhereLeft, rented, chunks);
    AabTestIsReference(AfterCandidateStart, rented, chunks);
    AabEncodings();
    RawOverlapAsWritten();
    RawOverlapCorrected();
  }

  /** The `Pattern` of "abc" under ASCII casing and UTF-8. */
  const PatAbc := BytePattern.Pattern([BytePattern.CharByteMap([65], [97]), BytePattern.CharByteMap([66], [98]), BytePattern.CharByteMap([67], [99])])

  lemma PatAbcBuilt()
    ensures BytePattern.NewPattern(Ascii, Utf8, "abc") == Success(PatAbc)
  {
    assert Ascii.toUpper('a') == 'A' && Ascii.toUpper('b') == 'B' && Ascii.toUpper('c') == 'C';
    assert Ascii.toLower('a') == 'a' && Ascii.toLower('b') == 'b' && Ascii.toLower('c') == 'c';
    AsciiUtf8("A"); AsciiUtf8("B"); AsciiUtf8("C");
    AsciiUtf8("a"); AsciiUtf8("b"); AsciiUtf8("c");
    var r := BytePattern.NewPattern(Ascii, Utf8, "abc");
    assert BytePattern.MapOf(Ascii, Utf8, 'a') == PatAbc.bytes[0];
    assert BytePattern.MapOf(Ascii, Utf8, 'b') == PatAbc.bytes[1];
    assert BytePattern.MapOf(Ascii, Utf8, 'c') == PatAbc.bytes[2];
    assert r.Success?;
    assert r.value.bytes == PatAbc.bytes;
  }

  const Ababc: seq<byte> := [42, 42, 42, 97, 98, 97, 98, 99, 42, 42, 42]

  lemma AbabcPieces()
    ensures Utf8("***ab") == [42, 42, 42, 97, 98] && Utf8("***") == [42, 42, 42]
  {
    AsciiUtf8("***ab");
    AsciiUtf8("***");
  }

  lemma AbabcBytes()
    ensures Utf8("***ababc***") == Ababc
    ensures Utf8("***ab") == Ababc[..5] && Utf8("***") == Ababc[8..]
  {
    hide Utf8;
    AbabcPieces();
    AsciiWords();
    assert Utf8("***ababc***") == Utf8("***ab") + (Utf8("abc") + Utf8("***")) by {
      assert "***ababc***" == "***ab" + ("abc" + "***");
      Utf8Append("abc", "***");
      Utf8Append("***ab", "abc" + "***");
    }
    assert Ababc == [42, 42, 42, 97, 98] + (Lower + [42, 42, 42]);
    assert Ababc[..5] == [42, 42, 42, 97, 98] && Ababc[8..] == [42, 42, 42];
  }

  lemma PatAbcShape()
    ensures BytePattern.WellFormed(PatAbc)
    ensures BytePattern.Delimiters(PatAbc) == {97, 65} && BytePattern.MaxLength(PatAbc) == 3
  {
    assert BytePattern.Delimiters(PatAbc) == {97, 65};
  }

  /** `Pattern.cs`'s scanner on "***ababc***" mid-stream: the comparison at
      the first "a" fails on the second "a", where the reader rests, and the
      match that starts there is found. */
  lemma PatternOverlapScan()
    ensures BytePattern.WellFormed(PatAbc)
    ensures BytePattern.FindPattern(PatAbc, WhereLeft, Ababc, false) == BytePattern.Scan(true, Ababc[..5], Ababc[8..])
  {
    var p, h := PatAbc, Ababc;
    PatAbcShape();
    hide BytePattern.Delimiters, BytePattern.MaxLength;
    assert NextDelimiter(h, {97, 65}, 0) == Some(3);
    assert BytePattern.Starts(p, h, 3);
    assert BytePattern.PossibleSequence(p, h, 0) == Some(3);
    assert BytePattern.AdvancePast(p.bytes[0], h, 3) == Some(4);
    assert BytePattern.AdvancePast(p.bytes[1], h, 4) == Some(5);
    assert h[5..6] == [97];
    assert BytePattern.AdvancePast(p.bytes[2], h, 5) == None;
    assert BytePattern.CompareSequence(p, h, 0, 3) == BytePattern.Mismatch(2, 5);
    assert BytePattern.FindFromCursor(p, WhereLeft, h, false, 0) == BytePattern.FindFromCursor(p, WhereLeft, h, false, 5);
    assert NextDelimiter(h, {97, 65}, 5) == Some(5);
    assert BytePattern.Starts(p, h, 5);
    assert BytePattern.PossibleSequence(p, h, 5) == Some(5);
    assert BytePattern.AdvancePast(p.bytes[0], h, 5) == Some(6);
    assert BytePattern.AdvancePast(p.bytes[1], h, 6) == Some(7);
    assert BytePattern.AdvancePast(p.bytes[2], h, 7) == Some(8);
    assert BytePattern.CompareSequence(p, h, 0, 5) == BytePattern.Matched(8);
    assert BytePattern.FindFromCursor(p, WhereLeft, h, false, 5) == Found(5, 8);
  }

  /** `Pattern.cs` on "***ababc***" mid-stream, from the term itself: the
      match is found and the bytes before it, "***ab", are passed over. */
  lemma PatternOverlap()
    ensures var r := BytePattern.NewPattern(Ascii, Utf8, "abc");
            r.Success? && BytePattern.FindPattern(r.value, WhereLeft, Utf8("***ababc***"), false)
                          == BytePattern.Scan(true, Utf8("***ab"), Utf8("***"))
  {
    PatAbcBuilt();
    AbabcBytes();
    PatternOverlapScan();
    hide BytePattern.FindPattern, BytePattern.NewPattern, Utf8;
  }

  /** The `Pattern` of "aab". */
  const PatAab := BytePattern.Pattern([BytePattern.CharByteMap([65], [97]), BytePattern.CharByteMap([65], [97]), BytePattern.CharByteMap([66], [98])])

  /** As written, `Pattern.cs`'s scanner on the final run over "aaab" fails
      at the third "a", goes on from there, fails again at "b" and reports no
      match, although "aab" is spelled one byte in. */
  lemma PatternOverlapAsWritten()
    ensures BytePattern.WellFormed(PatAab) && BytePattern.MatchesAt(PatAab, Aaab, 1)
    ensures BytePattern.FindPattern(PatAab, WhereLeft, Aaab, true) == BytePattern.Scan(false, Aaab, [])
  {
    var p, h := PatAab, Aaab;
    assert BytePattern.Delimiters(p) == RawDelims;
    assert h[0..1] == [97] && h[1..2] == [97] && h[2..3] == [97] && h[3..4] == [98];
    assert BytePattern.AdvancePast(p.bytes[0], h, 1) == Some(2);
    assert BytePattern.AdvancePast(p.bytes[1], h, 2) == Some(3);
    assert BytePattern.AdvancePast(p.bytes[2], h, 3) == Some(4);
    assert BytePattern.CompareSequence(p, h, 0, 1) == BytePattern.Matched(4);
    assert NextDelimiter(h, RawDelims, 0) == Some(0);
    assert BytePattern.PossibleSequence(p, h, 0) == Some(0);
    assert BytePattern.AdvancePast(p.bytes[0], h, 0) == Some(1);
    assert BytePattern.AdvancePast(p.bytes[2], h, 2) == None;
    assert BytePattern.CompareSequence(p, h, 0, 0) == BytePattern.Mismatch(2, 2);
    assert NextDelimiter(h, RawDelims, 2) == Some(2);
    assert BytePattern.PossibleSequence(p, h, 2) == Some(2);
    assert BytePattern.AdvancePast(p.bytes[1], h, 3) == None;
    assert BytePattern.CompareSequence(p, h, 0, 2) == BytePattern.Mismatch(1, 3);
    assert NextDelimiter(h, RawDelims, 3) == None;
    assert BytePattern.PossibleSequence(p, h, 3) == None;
    assert BytePattern.FindFromCursor(p, WhereLeft, h, true, 3) == NoDelimiter;
    assert BytePattern.FindFromCursor(p, WhereLeft, h, true, 2) == NoDelimiter;
    assert BytePattern.FindFromCursor(p, WhereLeft, h, true, 0) == NoDelimiter;
  }

  /** With the corrected policy the scan goes on one byte after the
      candidate's start and finds the match, passing over one "a". */
  lemma PatternOverlapCorrected()
    ensures BytePattern.WellFormed(PatAab)
    ensures BytePattern.FindPattern(PatAab, AfterCandidateStart, Aaab, true) == BytePattern.Scan(true, [97], [])
  {
    var p, h := PatAab, Aaab;
    assert BytePattern.Delimiters(p) == RawDelims;
    assert h[0..1] == [97] && h[1..2] == [97] && h[2..3] == [97] && h[3..4] == [98];
    assert NextDelimiter(h, RawDelims, 0) == Some(0);
    assert BytePattern.PossibleSequence(p, h, 0) == Some(0);
    assert BytePattern.AdvancePast(p.bytes[0], h, 0) == Some(1);
    assert BytePattern.AdvancePast(p.bytes[1], h, 1) == Some(2);
    assert BytePattern.AdvancePast(p.bytes[2], h, 2) == None;
    assert BytePattern.CompareSequence(p, h, 0, 0) == BytePattern.Mismatch(2, 2);
    assert NextDelimiter(h, RawDelims, 1) == Some(1);
    assert BytePattern.PossibleSequence(p, h, 1) == Some(1);
    assert BytePattern.AdvancePast(p.bytes[0], h, 1) == Some(2);
    assert BytePattern.AdvancePast(p.bytes[1], h, 2) == Some(3);
    assert BytePattern.AdvancePast(p.bytes[2], h, 3) == Some(4);
    assert BytePattern.CompareSequence(p, h, 0, 1) == BytePattern.Matched(4);
    assert BytePattern.FindFromCursor(p, AfterCandidateStart, h, true, 1) == Found(1, 4);
    assert BytePattern.FindFromCursor(p, AfterCandidateStart, h, true, 0) == Found(1, 4);
  }
}
