/** Text helpers shared by every model: the std::string search members the
    sources call (find, rfind, find_first_of, find_first_not_of, std::find),
    the decimal conversions std::to_string and std::strtoull, and the
    character classes the regular expressions and the C library use.
    A std::string is a seq<char> whose chars stand for bytes. */
module Text {

  datatype Option<T> = None | Some(value: T)

  /** std::string::npos, the largest size_t. */
  const NPOS: nat := 0xFFFF_FFFF_FFFF_FFFF
  /** size_t arithmetic wraps modulo 2^64. */
  const SIZE_MOD: nat := 0x1_0000_0000_0000_0000

  /** The size_t value a search result stands for: the index, or npos. */
  function SizeOf(r: Option<nat>): nat
  {
    if r.Some? then r.value else NPOS
  }

  // ---------------------------------------------------------------------
  // Character classes
  // ---------------------------------------------------------------------

  predicate IsDigit(c: char) { '0' <= c <= '9' }

  /** [[:alnum:]] in the "C" locale. */
  predicate IsAlnum(c: char) { 'a' <= c <= 'z' || 'A' <= c <= 'Z' || '0' <= c <= '9' }

  /** \s of the regular expressions and std::isspace in the "C" locale. */
  predicate IsSpace(c: char)
  {
    c == ' ' || c == '\t' || c == '\n' || c == '\r' || c == '\U{0B}' || c == '\U{0C}'
  }

  /** The characters the ECMAScript "." does not match. */
  predicate IsLineBreak(c: char) { c == '\n' || c == '\r' }

  predicate NoLineBreaks(s: string)
  {
    forall i :: 0 <= i < |s| ==> !IsLineBreak(s[i])
  }

  // ---------------------------------------------------------------------
  // Searching
  // ---------------------------------------------------------------------

  predicate IsAt(s: string, pat: string, i: nat)
  {
    i + |pat| <= |s| && s[i..i + |pat|] == pat
  }

  /** s.find(pat, from): the first occurrence of pat starting at or after from. */
  function Find(s: string, pat: string, from: nat): (r: Option<nat>)
    decreases |s| - from
    ensures r.Some? ==> from <= r.value && IsAt(s, pat, r.value)
    ensures r.Some? ==> forall i :: from <= i < r.value ==> !IsAt(s, pat, i)
    ensures r.None? ==> forall i :: from <= i ==> !IsAt(s, pat, i)
  {
    if from + |pat| > |s| then None
    else if IsAt(s, pat, from) then Some(from)
    else Find(s, pat, from + 1)
  }

  /** s.rfind(pat, pos): the last occurrence of pat starting at or before pos. */
  function RFind(s: string, pat: string, pos: nat): (r: Option<nat>)
    decreases pos
    ensures r.Some? ==> r.value <= pos && IsAt(s, pat, r.value)
    ensures r.Some? ==> forall i: nat :: r.value < i <= pos ==> !IsAt(s, pat, i)
    ensures r.None? ==> forall i: nat :: i <= pos ==> !IsAt(s, pat, i)
  {
    if IsAt(s, pat, pos) then Some(pos)
    else if pos == 0 then None
    else RFind(s, pat, pos - 1)
  }

  /** s.find_first_of(chars, from). */
  function FindFirstOf(s: string, chars: set<char>, from: nat): (r: Option<nat>)
    decreases |s| - from
    ensures r.Some? ==> from <= r.value < |s| && s[r.value] in chars
    ensures r.Some? ==> forall i :: from <= i < r.value ==> s[i] !in chars
    ensures r.None? ==> forall i :: from <= i < |s| ==> s[i] !in chars
  {
    if from >= |s| then None
    else if s[from] in chars then Some(from)
    else FindFirstOf(s, chars, from + 1)
  }

  /** s.find_first_not_of(chars, from). */
  function FindFirstNotOf(s: string, chars: set<char>, from: nat): (r: Option<nat>)
    decreases |s| - from
    ensures r.Some? ==> from <= r.value < |s| && s[r.value] !in chars
    ensures r.Some? ==> forall i :: from <= i < r.value ==> s[i] in chars
    ensures r.None? ==> forall i :: from <= i < |s| ==> s[i] in chars
  {
    if from >= |s| then None
    else if s[from] !in chars then Some(from)
    else FindFirstNotOf(s, chars, from + 1)
  }

  /** std::find over [from, end): the first index of c, or |s| for "end". */
  function FindChar(s: string, c: char, from: nat): (r: nat)
    requires from <= |s|
    decreases |s| - from
    ensures from <= r <= |s|
    ensures r < |s| ==> s[r] == c
    ensures forall i :: from <= i < r ==> s[i] != c
  {
    if from == |s| || s[from] == c then from else FindChar(s, c, from + 1)
  }

  /** The end of the longest run of characters satisfying p that starts at i. */
  function SpanFrom(s: string, i: nat, p: char -> bool): (r: nat)
    requires i <= |s|
    decreases |s| - i
    ensures i <= r <= |s|
    ensures forall k :: i <= k < r ==> p(s[k])
    ensures r < |s| ==> !p(s[r])
  {
    if i == |s| || !p(s[i]) then i else SpanFrom(s, i + 1, p)
  }

  /** The start of the longest run of characters satisfying p that ends at j. */
  function SpanBack(s: string, j: nat, p: char -> bool): (r: nat)
    requires j <= |s|
    decreases j
    ensures r <= j
    ensures forall k :: r <= k < j ==> p(s[k])
    ensures r > 0 ==> !p(s[r - 1])
  {
    if j == 0 || !p(s[j - 1]) then j else SpanBack(s, j - 1, p)
  }

  // ---------------------------------------------------------------------
  // Decimal text
  // ---------------------------------------------------------------------

  function DigitChar(d: nat): (c: char)
    requires d < 10
    ensures IsDigit(c)
  {
    ('0' as int + d) as char
  }

  function DigitValue(c: char): (d: nat)
    requires IsDigit(c)
    ensures d < 10
  {
    c as int - '0' as int
  }

  predicate AllDigits(s: string)
  {
    forall i :: 0 <= i < |s| ==> IsDigit(s[i])
  }

  /** The value of a string of decimal digits. */
  function DigitsValue(s: string): nat
    requires AllDigits(s)
  {
    if s == [] then 0 else DigitsValue(s[..|s| - 1]) * 10 + DigitValue(s[|s| - 1])
  }

  /** std::to_string on an unsigned value: its shortest decimal text. */
  function Decimal(n: nat): (r: string)
    ensures |r| > 0 && AllDigits(r)
    ensures |r| > 1 ==> r[0] != '0'
  {
    if n < 10 then [DigitChar(n)] else Decimal(n / 10) + [DigitChar(n % 10)]
  }

  lemma {:induction false} DecimalValue(n: nat)
    ensures DigitsValue(Decimal(n)) == n
  {
    if n >= 10 {
      var r := Decimal(n);
      assert r[..|r| - 1] == Decimal(n / 10);
      DecimalValue(n / 10);
    }
  }

  /** std::strtoull(s, &end, 10): leading white space is skipped, an optional
      sign is read, then the longest run of digits. No digits gives 0, a
      value above ULLONG_MAX gives ULLONG_MAX, and a minus sign negates
      modulo 2^64. */
  function StrToULL(s: string): (r: nat)
    ensures r < SIZE_MOD
  {
    var i := SpanFrom(s, 0, IsSpace);
    var neg := i < |s| && s[i] == '-';
    var j := if i < |s| && (s[i] == '-' || s[i] == '+') then i + 1 else i;
    var k := SpanFrom(s, j, IsDigit);
    var v := DigitsValue(s[j..k]);
    if v > NPOS then NPOS
    else if neg then (SIZE_MOD - v) % SIZE_MOD
    else v
  }

  /** Reading back what std::to_string wrote gives the value again. */
  lemma StrToULLOfDecimal(n: nat)
    requires n < SIZE_MOD
    ensures StrToULL(Decimal(n)) == n
  {
    var s := Decimal(n);
    assert !IsSpace(s[0]) && s[0] != '-' && s[0] != '+';
    assert SpanFrom(s, 0, IsSpace) == 0;
    assert SpanFrom(s, 0, IsDigit) == |s| by {
      DigitRunToEnd(s, 0);
    }
    assert s[0..|s|] == s;
    DecimalValue(n);
  }

  lemma {:induction false} DigitRunToEnd(s: string, i: nat)
    requires i <= |s| && AllDigits(s)
    ensures SpanFrom(s, i, IsDigit) == |s|
    decreases |s| - i
  {
    if i < |s| {
      DigitRunToEnd(s, i + 1);
    }
  }

  // ---------------------------------------------------------------------
  // Reversal
  // ---------------------------------------------------------------------

  /** The character reversal of s. */
  function Reversed(s: string): (r: string)
    ensures |r| == |s|
  {
    if s == [] then [] else Reversed(s[1..]) + [s[0]]
  }

  lemma {:induction false} ReversedAt(s: string, k: nat)
    requires k < |s|
    ensures Reversed(s)[k] == s[|s| - 1 - k]
  {
    if k < |s| - 1 {
      ReversedAt(s[1..], k);
    }
  }

  /** Reversing twice gives the original string back. */
  lemma ReversedTwice(s: string)
    ensures Reversed(Reversed(s)) == s
  {
    var r := Reversed(s);
    forall k | 0 <= k < |s|
      ensures Reversed(r)[k] == s[k]
    {
      ReversedAt(r, k);
      ReversedAt(s, |s| - 1 - k);
    }
  }
}
