/**
 * The string operations the program takes from Python. `Lower` and `Strip` are exact on Latin-1,
 * the characters an HTTP head can carry; `Upper` is only compared with ASCII words.
 */
module Text {
  import opened Wrappers
  import opened Bytes

  const CRLF := "\r\n"
  const MAX_INT_DIGITS := 4300 // longest digit string int() accepts

  lemma Associates<T>(a: seq<T>, b: seq<T>, c: seq<T>)
    ensures a + (b + c) == (a + b) + c
  {
  }

  lemma SliceOfSlice<T>(s: seq<T>, i: nat, j: nat, c: nat, d: nat, a: nat, b: nat)
    requires i <= j <= |s| && c <= d <= j - i && a == i + c && b == i + d
    ensures s[i..j][c..d] == s[a..b]
  {
    var t := s[i..j];
    forall k | 0 <= k < d - c
      ensures t[c..d][k] == s[a..b][k]
    {
      assert t[c + k] == s[a + k];
    }
    assert t[c..d] == s[a..b];
  }

  // ---- Searching and splitting ------------------------------------------

  ghost predicate OccursAt<T>(s: seq<T>, sep: seq<T>, i: int) {
    0 <= i && i + |sep| <= |s| && s[i..i + |sep|] == sep
  }

  /** The position of the first occurrence of `sep`. */
  function Find<T(==)>(s: seq<T>, sep: seq<T>): (r: Option<nat>)
    ensures r.Some? ==> OccursAt(s, sep, r.value)
  {
    FindFrom(s, sep, 0)
  }

  /** The same among the positions from `i` on. */
  function FindFrom<T(==)>(s: seq<T>, sep: seq<T>, i: nat): (r: Option<nat>)
    ensures r.Some? ==> OccursAt(s, sep, r.value)
    decreases |s| - i
  {
    if i + |sep| > |s| then None
    else if s[i..i + |sep|] == sep then Some(i)
    else if i == |s| then None
    else FindFrom(s, sep, i + 1)
  }

  lemma {:induction false} FindFromIsFirst<T>(s: seq<T>, sep: seq<T>, i: nat, j: nat)
    requires i <= j && OccursAt(s, sep, j)
    ensures FindFrom(s, sep, i).Some? && FindFrom(s, sep, i).value <= j
    decreases j - i
  {
    if i < j {
      FindFromIsFirst(s, sep, i + 1, j);
    }
  }

  lemma FindIsFirst<T>(s: seq<T>, sep: seq<T>, j: nat)
    requires OccursAt(s, sep, j)
    ensures Find(s, sep).Some? && Find(s, sep).value <= j
  {
    FindFromIsFirst(s, sep, 0, j);
  }

  ghost predicate FirstAt<T>(s: seq<T>, sep: seq<T>, i: int) {
    OccursAt(s, sep, i) && forall j :: 0 <= j < i ==> !OccursAt(s, sep, j)
  }

  lemma FoundIsFirst<T>(s: seq<T>, sep: seq<T>)
    requires Find(s, sep).Some?
    ensures FirstAt(s, sep, Find(s, sep).value)
  {
    forall j | 0 <= j < Find(s, sep).value
      ensures !OccursAt(s, sep, j)
    {
      if OccursAt(s, sep, j) {
        FindIsFirst(s, sep, j);
      }
    }
  }

  lemma FindsFirst<T>(s: seq<T>, sep: seq<T>, i: nat)
    requires FirstAt(s, sep, i)
    ensures Find(s, sep) == Some(i)
  {
    FindIsFirst(s, sep, i);
    assert OccursAt(s, sep, Find(s, sep).value);
  }

  lemma FindNowhere<T>(s: seq<T>, sep: seq<T>)
    requires sep != [] && forall j :: 0 <= j < |s| ==> !OccursAt(s, sep, j)
    ensures Find(s, sep) == None
  {
    if Find(s, sep).Some? {
      FoundIsFirst(s, sep);
    }
  }

  lemma NotFoundNowhere<T>(s: seq<T>, sep: seq<T>, j: nat)
    requires Find(s, sep).None?
    ensures !OccursAt(s, sep, j)
  {
    if OccursAt(s, sep, j) {
      FindIsFirst(s, sep, j);
    }
  }

  /** Within a prefix, occurrences are those of the prefix. */
  lemma OccursInPrefix<T>(s: seq<T>, more: seq<T>, sep: seq<T>, j: nat)
    requires j + |sep| <= |s|
    ensures OccursAt(s + more, sep, j) <==> OccursAt(s, sep, j)
  {
    assert (s + more)[j..j + |sep|] == s[j..j + |sep|];
  }

  lemma FirstInPrefix<T>(s: seq<T>, more: seq<T>, sep: seq<T>, i: nat)
    requires i + |sep| <= |s|
    ensures FirstAt(s + more, sep, i) <==> FirstAt(s, sep, i)
  {
    forall j | 0 <= j <= i
      ensures OccursAt(s + more, sep, j) <==> OccursAt(s, sep, j)
    {
      OccursInPrefix(s, more, sep, j);
    }
  }

  /** A one-element separator is found right after a stretch without it. */
  lemma FindAfter<T>(before: seq<T>, x: T, after: seq<T>)
    requires x !in before
    ensures Find(before + [x] + after, [x]) == Some(|before|)
  {
    var s, n := before + [x] + after, |before|;
    forall j | 0 <= j < n
      ensures !OccursAt(s, [x], j)
    {
      assert s[j] == before[j];
    }
    assert s[n..n + 1] == [x];
    FindsFirst(s, [x], n);
  }

  lemma FindAbsent<T>(s: seq<T>, x: T)
    requires x !in s
    ensures Find(s, [x]) == None
  {
    forall j | 0 <= j < |s|
      ensures !OccursAt(s, [x], j)
    {
      assert s[j] in s;
    }
    FindNowhere(s, [x]);
  }

  lemma NotFoundAbsent<T>(s: seq<T>, x: T)
    requires Find(s, [x]) == None
    ensures x !in s
  {
    if x in s {
      var k :| 0 <= k < |s| && s[k] == x;
      assert s[k..k + 1] == [x];
      FindIsFirst(s, [x], k);
    }
  }

  predicate Contains(s: string, part: string) {
    Find(s, part).Some?
  }

  predicate StartsWith(s: string, prefix: string) {
    |prefix| <= |s| && s[..|prefix|] == prefix
  }

  /** Python's s.split(sep). */
  function Split(s: string, sep: string): (parts: seq<string>)
    requires sep != ""
    ensures parts != []
  {
    match Find(s, sep)
    case None => [s]
    case Some(i) => [s[..i]] + Split(s[i + |sep|..], sep)
  }

  function Join(lines: seq<string>, sep: string): string
    requires lines != []
  {
    if |lines| == 1 then lines[0] else lines[0] + sep + Join(lines[1..], sep)
  }

  // ---- Character classes -------------------------------------------------

  function LowerChar(c: char): char {
    if 'A' <= c <= 'Z' || (0xC0 <= c as int <= 0xDE && c as int != 0xD7) then (c as int + 32) as char else c
  }

  function Lower(s: string): (r: string)
    ensures |r| == |s| && forall i :: 0 <= i < |s| ==> r[i] == LowerChar(s[i])
  {
    seq(|s|, i requires 0 <= i < |s| => LowerChar(s[i]))
  }

  function Upper(s: string): string {
    seq(|s|, i requires 0 <= i < |s| => if 'a' <= s[i] <= 'z' then (s[i] as int - 32) as char else s[i])
  }

  predicate IsSpace(c: char) {
    c == ' ' || 0x09 <= c as int <= 0x0D || 0x1C <= c as int <= 0x1F || c as int == 0x85 || c as int == 0xA0
  }

  /** The Latin-1 letters that have a lower case within Latin-1, by code point, and the space characters. */
  lemma Latin1Classes(c: char)
    requires c as int < 256
    ensures var n := c as int;
      && LowerChar(c) as int ==
         (if n in {0xD7, 0xDF, 0xF7} || n < 65 || 90 < n < 192 || 222 < n then n else n + 32)
      && (IsSpace(c) <==> n in {9, 10, 11, 12, 13, 28, 29, 30, 31, 32, 133, 160})
  {
  }

  function LStrip(s: string): string {
    if s != "" && IsSpace(s[0]) then LStrip(s[1..]) else s
  }

  function RStrip(s: string): string {
    if s != "" && IsSpace(s[|s| - 1]) then RStrip(s[..|s| - 1]) else s
  }

  function Strip(s: string): string {
    RStrip(LStrip(s))
  }

  /** Outside [a, b) there are only spaces; what is inside, if anything, neither begins nor ends in one. */
  ghost predicate StripsTo(s: string, a: int, b: int) {
    && 0 <= a <= b <= |s|
    && (forall k :: 0 <= k < a ==> IsSpace(s[k]))
    && (forall k :: b <= k < |s| ==> IsSpace(s[k]))
    && (a < b ==> !IsSpace(s[a]) && !IsSpace(s[b - 1]))
  }

  lemma {:induction false} LStripBounds(s: string) returns (a: nat)
    ensures a <= |s| && LStrip(s) == s[a..]
    ensures (forall k :: 0 <= k < a ==> IsSpace(s[k])) && (a < |s| ==> !IsSpace(s[a]))
  {
    if s != "" && IsSpace(s[0]) {
      var b := LStripBounds(s[1..]);
      a := b + 1;
      assert s[1..][b..] == s[a..];
      forall k | 0 < k < a
        ensures IsSpace(s[k])
      {
        assert s[k] == s[1..][k - 1];
      }
    } else {
      a := 0;
      assert s[0..] == s;
    }
  }

  lemma {:induction false} RStripBounds(s: string) returns (b: nat)
    ensures b <= |s| && RStrip(s) == s[..b]
    ensures (forall k :: b <= k < |s| ==> IsSpace(s[k])) && (b > 0 ==> !IsSpace(s[b - 1]))
  {
    if s != "" && IsSpace(s[|s| - 1]) {
      var front := s[..|s| - 1];
      b := RStripBounds(front);
      assert front[..b] == s[..b];
      forall k | b <= k < |s| - 1
        ensures IsSpace(s[k])
      {
        assert s[k] == front[k];
      }
    } else {
      b := |s|;
    }
  }

  lemma StripBounds(s: string) returns (a: nat, b: nat)
    ensures StripsTo(s, a, b) && Strip(s) == s[a..b]
  {
    a := LStripBounds(s);
    var t := s[a..];
    var n := RStripBounds(t);
    b := a + n;
    assert t[..n] == s[a..b];
    forall k | b <= k < |s|
      ensures IsSpace(s[k])
    {
      assert s[k] == t[k - a];
    }
    if a < b {
      assert s[b - 1] == t[n - 1];
    }
  }

  /** Stripping gives a non-empty core exactly when that is what lies between the surrounding spaces. */
  lemma StripExactly(s: string, a: nat, b: nat)
    requires a < b && StripsTo(s, a, b)
    ensures Strip(s) == s[a..b]
  {
    var c, d := StripBounds(s);
    assert !IsSpace(s[a]) && !IsSpace(s[b - 1]);
    assert c <= a && b <= d;
    assert a <= c && d <= b;
  }

  /** s.lstrip(" \t"), the only trimming the reader does. */
  function LStripBlanks(s: string): string {
    if s != "" && (s[0] == ' ' || s[0] == '\t') then LStripBlanks(s[1..]) else s
  }

  predicate IsLatin1(s: string) {
    forall c :: c in s ==> c as int < 256
  }

  predicate IsAscii(s: string) {
    forall c :: c in s ==> c as int < 128
  }

  // ---- Latin-1 -----------------------------------------------------------

  function DecodeLatin1(b: bytes): (s: string)
    ensures |s| == |b| && IsLatin1(s)
    ensures forall i :: 0 <= i < |b| ==> s[i] == b[i] as char
  {
    seq(|b|, i requires 0 <= i < |b| => b[i] as char)
  }

  function ByteOf(c: char): byte
    requires c as int < 256
  {
    c as int
  }

  function EncodeLatin1(s: string): (b: bytes)
    requires IsLatin1(s)
    ensures |b| == |s|
    ensures forall i :: 0 <= i < |s| ==> b[i] == s[i] as int
  {
    seq(|s|, i requires 0 <= i < |s| => assert s[i] in s; ByteOf(s[i]))
  }

  lemma DecodeOfEncode(s: string, rest: bytes)
    requires IsLatin1(s)
    ensures DecodeLatin1(EncodeLatin1(s) + rest) == s + DecodeLatin1(rest)
  {
  }

  lemma OccursDecoded(b: bytes, sep: bytes, j: int)
    ensures OccursAt(b, sep, j) <==> OccursAt(DecodeLatin1(b), DecodeLatin1(sep), j)
  {
    var s, t := DecodeLatin1(b), DecodeLatin1(sep);
    if OccursAt(s, t, j) {
      forall i | 0 <= i < |sep|
        ensures b[j + i] == sep[i]
      {
        assert s[j..j + |t|][i] == t[i];
      }
    }
  }

  /** Searching bytes and searching their decoding is the same. */
  lemma FindDecoded(b: bytes, sep: bytes)
    ensures Find(b, sep) == Find(DecodeLatin1(b), DecodeLatin1(sep))
  {
    var s, t := DecodeLatin1(b), DecodeLatin1(sep);
    forall j
      ensures OccursAt(b, sep, j) <==> OccursAt(s, t, j)
    {
      OccursDecoded(b, sep, j);
    }
    if Find(b, sep).Some? {
      FoundIsFirst(b, sep);
      FindsFirst(s, t, Find(b, sep).value);
    } else if Find(s, t).Some? {
      FindIsFirst(b, sep, Find(s, t).value);
    }
  }

  // ---- Decimal numbers ---------------------------------------------------

  predicate IsDecimal(s: string) {
    s != "" && AllDigits(s)
  }

  predicate AllDigits(s: string) {
    forall i :: 0 <= i < |s| ==> '0' <= s[i] <= '9'
  }

  function DecimalValue(s: string): nat
    requires AllDigits(s)
  {
    if s == "" then 0
    else
      10 * DecimalValue(s[..|s| - 1]) + (s[|s| - 1] as int - '0' as int)
  }

  function Decimal(n: nat): (s: string)
    ensures IsDecimal(s)
  {
    var last := [('0' as int + n % 10) as char];
    if n < 10 then last else Decimal(n / 10) + last
  }

  lemma {:induction false} DecimalRoundTrip(n: nat)
    ensures DecimalValue(Decimal(n)) == n
  {
    var s := Decimal(n);
    var last := ('0' as int + n % 10) as char;
    assert s[|s| - 1] == last && last as int - '0' as int == n % 10;
    if n >= 10 {
      DecimalRoundTrip(n / 10);
      assert s[..|s| - 1] == Decimal(n / 10);
    } else {
      assert s[..|s| - 1] == "";
    }
  }

  function Pow10(k: nat): nat {
    if k == 0 then 1 else 10 * Pow10(k - 1)
  }

  lemma {:induction false} DecimalLength(n: nat, k: nat)
    requires n < Pow10(k) && k > 0
    ensures |Decimal(n)| <= k
  {
    if n >= 10 {
      assert k > 1;
      DecimalLength(n / 10, k - 1);
    }
  }
}
