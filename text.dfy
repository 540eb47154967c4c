/**
 The string operations the middleware applies to header names and values:
 Latin-1 decoding of header bytes, `str.lower`, `str.strip` and
 `str.split(sep)[0]`, each restricted to the Latin-1 characters that a
 decoded header consists of.
 */
module Text {

  type byte = b: int | 0 <= b < 0x100

  /** `bytes.decode("latin1")`: every byte becomes the character with the same code. */
  function Latin1Decode(bs: seq<byte>): (s: string)
    ensures |s| == |bs|
    ensures forall i :: 0 <= i < |bs| ==> s[i] as int == bs[i]
  {
    seq(|bs|, i requires 0 <= i < |bs| => bs[i] as char)
  }

  /** Decoding loses nothing: distinct byte strings decode to distinct strings. */
  lemma Latin1DecodeInjective(a: seq<byte>, b: seq<byte>)
    requires Latin1Decode(a) == Latin1Decode(b)
    ensures a == b
  {
    assert |a| == |b|;
    forall i | 0 <= i < |a| ensures a[i] == b[i] {
      assert Latin1Decode(a)[i] == Latin1Decode(b)[i];
    }
  }

  /** The characters up to U+00FF that `str.lower` changes: A-Z and U+00C0-U+00DE except U+00D7. */
  predicate IsUpper(c: char) {
    (0x41 <= c as int <= 0x5A) || (0xC0 <= c as int <= 0xDE && c as int != 0xD7)
  }

  /** `str.lower` on one character of the Latin-1 range; other characters are kept. */
  function LowerChar(c: char): (r: char)
    ensures !IsUpper(r)
    ensures IsUpper(c) ==> r == (c as int + 0x20) as char
    ensures !IsUpper(c) ==> r == c
  {
    if IsUpper(c) then (c as int + 0x20) as char else c
  }

  /** `s.lower()`, character by character. */
  function Lower(s: string): (r: string)
    ensures |r| == |s|
    ensures forall i :: 0 <= i < |s| ==> r[i] == LowerChar(s[i])
  {
    seq(|s|, i requires 0 <= i < |s| => LowerChar(s[i]))
  }

  /** A lower-cased string is its own lower case, so folding twice is folding once. */
  lemma LowerIdempotent(s: string)
    ensures Lower(Lower(s)) == Lower(s)
    ensures forall i :: 0 <= i < |s| ==> !IsUpper(Lower(s)[i])
  {
    forall i | 0 <= i < |s| ensures Lower(Lower(s))[i] == Lower(s)[i] {
      assert !IsUpper(Lower(s)[i]);
    }
  }

  /** A string without upper-case characters is unchanged by `lower`. */
  lemma LowerOfLowerCase(s: string)
    requires forall i :: 0 <= i < |s| ==> !IsUpper(s[i])
    ensures Lower(s) == s
  {
    forall i | 0 <= i < |s| ensures Lower(s)[i] == s[i] {
    }
  }

  /** The characters up to U+00FF for which `str.isspace` holds. */
  predicate IsSpace(c: char) {
    c as int in {0x09, 0x0A, 0x0B, 0x0C, 0x0D, 0x1C, 0x1D, 0x1E, 0x1F, 0x20, 0x85, 0xA0}
  }

  /** The length of the whitespace run that starts `s`. */
  function LeadingSpaces(s: string): (n: nat)
    ensures n <= |s|
    ensures forall i :: 0 <= i < n ==> IsSpace(s[i])
    ensures n < |s| ==> !IsSpace(s[n])
  {
    if s != [] && IsSpace(s[0]) then 1 + LeadingSpaces(s[1..]) else 0
  }

  /** The length of the whitespace run that ends `s`. */
  function TrailingSpaces(s: string): (n: nat)
    ensures n <= |s|
    ensures forall i :: |s| - n <= i < |s| ==> IsSpace(s[i])
    ensures n < |s| ==> !IsSpace(s[|s| - n - 1])
  {
    if s != [] && IsSpace(s[|s| - 1]) then 1 + TrailingSpaces(s[..|s| - 1]) else 0
  }

  /**
   `s.strip()`: the slice of `s` between its leading and its trailing
   whitespace. The result neither starts nor ends with whitespace, and it is
   empty exactly when `s` is all whitespace.
   */
  function Strip(s: string): (r: string)
    ensures exists lo, hi :: 0 <= lo <= hi <= |s| && r == s[lo..hi] &&
                             (forall i :: 0 <= i < lo ==> IsSpace(s[i])) &&
                             (forall i :: hi <= i < |s| ==> IsSpace(s[i]))
    ensures r != [] ==> !IsSpace(r[0]) && !IsSpace(r[|r| - 1])
    ensures r == [] <==> forall i :: 0 <= i < |s| ==> IsSpace(s[i])
  {
    var lo := LeadingSpaces(s);
    var rest := s[lo..];
    var hi := lo + |rest| - TrailingSpaces(rest);
    assert lo < |s| ==> hi > lo;
    assert forall i :: hi <= i < |s| ==> s[i] == rest[i - lo];
    assert 0 <= lo <= hi <= |s| && (forall i :: 0 <= i < lo ==> IsSpace(s[i])) &&
           (forall i :: hi <= i < |s| ==> IsSpace(s[i]));
    s[lo..hi]
  }

  /** A string that neither starts nor ends with whitespace is its own strip. */
  lemma StripUnchanged(s: string)
    requires s != [] ==> !IsSpace(s[0]) && !IsSpace(s[|s| - 1])
    ensures Strip(s) == s
  {
    if s != [] {
      assert LeadingSpaces(s) == 0;
      assert TrailingSpaces(s[0..]) == 0;
      assert s[0..|s|] == s;
    }
  }

  /** `s.split(sep)[0]`: the text before the first `sep`, or all of `s` when it has none. */
  function BeforeFirst(s: string, sep: char): (r: string)
    ensures |r| <= |s| && r == s[..|r|]
    ensures sep !in r
    ensures |r| < |s| ==> s[|r|] == sep
  {
    if s == [] || s[0] == sep then []
    else
      var rest := BeforeFirst(s[1..], sep);
      assert s[1..][..|rest|] == s[1..|rest| + 1];
      [s[0]] + rest
  }
}
