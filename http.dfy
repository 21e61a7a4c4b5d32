/** The string logic of the HTTP layer: URL percent-decoding, the host /
    target split of a URL, and the Cookie header built from a response's
    Set-Cookie values. */
module Http {
  import opened Text

  // ---------------------------------------------------------------------
  // Percent-decoding
  // ---------------------------------------------------------------------

  /** `hexToInt`: `c <= '9' ? c - '0' : c - 'A' + 10`, computed in the 8 bits
      of a char; the result is the byte value 0..255 of that char.
      Lower-case digits are not recognised. `char` is signed (as on the x86
      targets), so a byte 0x80..0xFF is negative and takes the `c <= '9'`
      branch. */
  function HexToInt(c: char): (r: nat)
    ensures r < 256
    ensures '0' <= c <= '9' ==> r == c as int - '0' as int
    ensures 'A' <= c <= 'F' ==> r == c as int - 'A' as int + 10
    ensures 128 <= c as int < 256 ==> r == c as int - '0' as int
  {
    if c <= '9' || c as int >= 128 then (c as int - '0' as int) % 256
    else (c as int - 'A' as int + 10) % 256
  }

  /** The byte `(hexToInt(hi) << 4) | (hexToInt(lo) & 0x0F)` that `decode`
      appends for "%" hi lo, truncated to a char: the low four bits of the
      first digit's byte above the low four bits of the second's (the two
      bit fields do not overlap, so the or is a sum). A negative digit value
      (a byte 0x80..0xFF, or a first digit below '0') is shifted as a two's
      complement value; C++ defines `<<` of a negative `int` only from C++20
      on. The source reads both digits with two indeterminately sequenced
      `++it`, in an unspecified order; the model takes the intended order,
      first digit high. */
  function DecodedByte(hi: char, lo: char): (c: char)
    ensures c as int < 256
  {
    ((HexToInt(hi) % 16) * 16 + HexToInt(lo) % 16) as char
  }

  /** What `decode` produces: "%" with at least two characters after it
      becomes one byte, "+" is dropped, every other character is copied. */
  function Decoded(s: string): string
  {
    if s == [] then []
    else if s[0] == '%' && |s| > 2 then [DecodedByte(s[1], s[2])] + Decoded(s[3..])
    else if s[0] == '+' then Decoded(s[1..])
    else [s[0]] + Decoded(s[1..])
  }

  /** `decode(begin, end)`: the loop over the iterator range. */
  method Decode(s: string) returns (output: string)
    ensures output == Decoded(s)
  {
    output := [];
    var i := 0;
    while i < |s|
      invariant 0 <= i <= |s|
      invariant output + Decoded(s[i..]) == Decoded(s)
    {
      DecodedAdvance(s, i, output);
      if s[i] == '%' && |s| - i > 2 {
        output := output + [DecodedByte(s[i + 1], s[i + 2])];
        i := i + 3;
      } else {
        if s[i] != '+' {
          output := output + [s[i]];
        }
        i := i + 1;
      }
    }
  }

  /** One step of `decode` at position i keeps what is left to decode in
      step with what is already output. */
  lemma DecodedAdvance(s: string, i: nat, output: string)
    requires i < |s| && output + Decoded(s[i..]) == Decoded(s)
    ensures s[i] == '%' && |s| - i > 2 ==>
      (output + [DecodedByte(s[i + 1], s[i + 2])]) + Decoded(s[i + 3..]) == Decoded(s)
    ensures !(s[i] == '%' && |s| - i > 2) && s[i] == '+' ==> output + Decoded(s[i + 1..]) == Decoded(s)
    ensures !(s[i] == '%' && |s| - i > 2) && s[i] != '+' ==> (output + [s[i]]) + Decoded(s[i + 1..]) == Decoded(s)
  {
    assert s[i..][1..] == s[i + 1..];
    if s[i] == '%' && |s| - i > 2 {
      assert s[i..][3..] == s[i + 3..];
      var b := DecodedByte(s[i + 1], s[i + 2]);
      assert Decoded(s[i..]) == [b] + Decoded(s[i + 3..]);
      assert output + ([b] + Decoded(s[i + 3..])) == (output + [b]) + Decoded(s[i + 3..]);
    } else if s[i] != '+' {
      assert Decoded(s[i..]) == [s[i]] + Decoded(s[i + 1..]);
      assert output + ([s[i]] + Decoded(s[i + 1..])) == (output + [s[i]]) + Decoded(s[i + 1..]);
    }
  }

  /** Decoding never lengthens the text. */
  lemma {:induction false} DecodedShorter(s: string)
    ensures |Decoded(s)| <= |s|
  {
    if s != [] {
      if s[0] == '%' && |s| > 2 {
        DecodedShorter(s[3..]);
      } else {
        DecodedShorter(s[1..]);
      }
    }
  }

  /** s without its '+' characters, order kept. */
  function WithoutPlus(s: string): string
  {
    if s == [] then [] else (if s[0] == '+' then [] else [s[0]]) + WithoutPlus(s[1..])
  }

  /** Text without '%' is copied unchanged and in order, except that every
      '+' is dropped (it is not turned into a space). */
  lemma {:induction false} DecodedPlain(s: string)
    requires '%' !in s
    ensures Decoded(s) == WithoutPlus(s)
  {
    if s != [] {
      assert s[0] != '%';
      assert forall c :: c in s[1..] ==> c in s;
      DecodedPlain(s[1..]);
    }
  }

  /** A "%" with fewer than two characters after it is copied literally. */
  lemma PercentAtEnd(s: string)
    requires |s| <= 2 && s != [] && s[0] == '%'
    ensures Decoded(s)[0] == '%'
  {
  }

  /** The upper-case hexadecimal digit of d. */
  function HexDigit(d: nat): char
    requires d < 16
  {
    if d < 10 then ('0' as int + d) as char else ('A' as int + d - 10) as char
  }

  /** Percent-encoding of bytes with upper-case digits: the inverse that
      `decode` is meant for. */
  function PercentEncoded(s: string): string
    requires forall i :: 0 <= i < |s| ==> s[i] as int < 256
  {
    if s == [] then []
    else ['%', HexDigit(s[0] as int / 16), HexDigit(s[0] as int % 16)] + PercentEncoded(s[1..])
  }

  /** A byte above 0x7F after '%' is read as a negative char: "%" 0xC3 "A"
      decodes to ':' (0x3A), where an unsigned char would give 0xCA. The
      negative value is shifted as two's complement, as `DecodedByte` does. */
  lemma HighByteDigit()
    ensures DecodedByte(0xC3 as char, 'A') == ':'
  {
  }

  lemma HexDigitRoundTrip(d: nat)
    requires d < 16
    ensures HexToInt(HexDigit(d)) == d
  {
  }

  lemma ByteRoundTrip(c: char)
    requires c as int < 256
    ensures DecodedByte(HexDigit(c as int / 16), HexDigit(c as int % 16)) == c
  {
    HexDigitRoundTrip(c as int / 16);
    HexDigitRoundTrip(c as int % 16);
  }

  /** `decode` undoes upper-case percent-encoding of any byte string. */
  lemma {:induction false} DecodeEncoded(s: string)
    requires forall i :: 0 <= i < |s| ==> s[i] as int < 256
    ensures Decoded(PercentEncoded(s)) == s
  {
    if s != [] {
      var e := PercentEncoded(s);
      assert e[3..] == PercentEncoded(s[1..]);
      ByteRoundTrip(s[0]);
      DecodeEncoded(s[1..]);
      assert s == [s[0]] + s[1..];
    }
  }

  // ---------------------------------------------------------------------
  // Url
  // ---------------------------------------------------------------------

  /** Http::Url: the host and the request target of a URL. */
  datatype Url = Url(host: string, target: string)
  {
    /** `Url::empty`: both parts are empty. */
    predicate Empty()
    {
      host == [] && target == []
    }
  }

  /** The default constructor `Url()`. */
  function DefaultUrl(): (u: Url)
    ensures u.Empty()
  {
    Url([], [])
  }

  /** Where `Url(string)` starts the host: after the first "//", or at 0. */
  function HostStart(url: string): nat
  {
    var slashes := Find(url, "//", 0);
    if slashes.Some? then slashes.value + 2 else 0
  }

  /** `Url(string)`: the host starts after the first "//" (at 0 when there
      is none) and ends at the next "/"; the target is the rest from that
      "/". With no such "/", `end` is `size() - 1`, so the host loses the
      last character and the target is that character. On the empty string
      `size() - 1` wraps and `substr` throws std::out_of_range: None. */
  function ParseUrl(url: string): (r: Option<Url>)
    ensures r.None? <==> url == []
  {
    if url == [] then None
    else
      var begin := HostStart(url);
      var slash := Find(url, "/", begin);
      var end := if slash.Some? then slash.value else |url| - 1;
      // substr(begin, end - begin): a count that wraps below zero takes the rest
      var host := if begin <= end then url[begin..end] else url[begin..];
      Some(Url(host, url[end..]))
  }

  /** When a "/" follows the host start, the host is the text from the
      host start up to that "/" and the target is the suffix from it: after
      the first "//" when there is one ("http://host/path"), from the
      beginning when there is none ("host/path"). */
  lemma ParseUrlWithPath(url: string, j: nat)
    requires Find(url, "/", HostStart(url)) == Some(j)
    ensures ParseUrl(url) == Some(Url(url[HostStart(url)..j], url[j..]))
    ensures Find(url, "//", 0).None? ==> ParseUrl(url) == Some(Url(url[..j], url[j..]))
    ensures url[j] == '/'
    ensures forall i :: HostStart(url) <= i < j ==> url[i] != '/'
  {
    assert url[j..j + 1] == "/";
    forall i | HostStart(url) <= i < j
      ensures url[i] != '/'
    {
      assert !IsAt(url, "/", i) && url[i..i + 1] == [url[i]];
    }
  }

  /** With no "/" after the host start, the target is the last character
      and the host is the text from the host start up to that character. */
  lemma ParseUrlNoPath(url: string)
    requires url != [] && Find(url, "/", HostStart(url)).None?
    ensures ParseUrl(url).value.target == [url[|url| - 1]]
    ensures ParseUrl(url).value.host ==
      if HostStart(url) < |url| then url[HostStart(url)..|url| - 1] else []
  {
    assert HostStart(url) <= |url| by {
      var slashes := Find(url, "//", 0);
      if slashes.Some? {
        assert IsAt(url, "//", slashes.value);
      }
    }
  }

  // ---------------------------------------------------------------------
  // Cookies
  // ---------------------------------------------------------------------

  /** `value.substr(0, value.find(";") + 1)`: the prefix up to and including
      the first ';'. Without a ';', npos + 1 wraps to 0 and nothing is kept. */
  function CookiePrefix(v: string): (r: string)
    ensures r == [] || (r[|r| - 1] == ';' && forall i :: 0 <= i < |r| - 1 ==> r[i] != ';')
    ensures (forall i :: 0 <= i < |v| ==> v[i] != ';') ==> r == []
    ensures r <= v
  {
    var semi := Find(v, ";", 0);
    // npos + 1 wraps to 0
    var count := if semi.Some? then semi.value + 1 else 0;
    if count == 0 then []
    else
      assert v[semi.value..semi.value + 1] == ";";
      assert forall i :: 0 <= i < semi.value ==> v[i] != ';' by {
        forall i | 0 <= i < semi.value
          ensures v[i] != ';'
        {
          assert !IsAt(v, ";", i) && v[i..i + 1] == [v[i]];
        }
      }
      v[..count]
  }

  /** The concatenated prefixes of the Set-Cookie values, in order. */
  function JoinedPrefixes(values: seq<string>): string
  {
    if values == [] then [] else JoinedPrefixes(values[..|values| - 1]) + CookiePrefix(values[|values| - 1])
  }

  /** The concatenation is empty or ends with the ';' of its last
      non-empty prefix. */
  lemma {:induction false} JoinedPrefixesEnd(values: seq<string>)
    ensures JoinedPrefixes(values) == [] || JoinedPrefixes(values)[|JoinedPrefixes(values)| - 1] == ';'
  {
    if values != [] {
      var front := JoinedPrefixes(values[..|values| - 1]);
      var p := CookiePrefix(values[|values| - 1]);
      JoinedPrefixesEnd(values[..|values| - 1]);
      assert JoinedPrefixes(values) == front + p;
      if p != [] {
        assert (front + p)[|front + p| - 1] == p[|p| - 1];
      } else {
        assert front + p == front;
      }
    }
  }

  /** The string logic of `Client::getResponseCookies` over the Set-Cookie
      values of the response, in header order: append each prefix, then
      erase the last character (always a ';') when the result is not empty. */
  method GetResponseCookies(values: seq<string>) returns (cookies: string)
    ensures JoinedPrefixes(values) == [] ==> cookies == []
    ensures JoinedPrefixes(values) != [] ==> cookies + ";" == JoinedPrefixes(values)
  {
    cookies := [];
    var k := 0;
    while k < |values|
      invariant 0 <= k <= |values|
      invariant cookies == JoinedPrefixes(values[..k])
    {
      assert values[..k + 1][..k] == values[..k];
      cookies := cookies + CookiePrefix(values[k]);
      k := k + 1;
    }
    assert values[..|values|] == values;
    JoinedPrefixesEnd(values);
    if cookies != [] {
      assert cookies == cookies[..|cookies| - 1] + ";";
      cookies := cookies[..|cookies| - 1];
    }
  }
}
