/**
 * Text as the handshake decoder sees it: an octet string is a `str` when it is
 * well-formed UTF-8 (section 4 of RFC 3629, which is what `str::from_utf8`
 * accepts), and `str::trim` removes the characters with the Unicode
 * White_Space property from both ends.  Both are stated on octets.
 */
module Utf8 {
  import opened Bytes

  predicate InRange(b: byte, lo: int, hi: int) { lo <= b as int <= hi }

  /** A UTF-8 continuation octet, 80..BF. */
  predicate Tail(b: byte) { InRange(b, 0x80, 0xBF) }

  /**
   * The length of the well-formed UTF-8 character that `s` starts with, or 0
   * when `s` does not start with one; the cases are the rows of the
   * UTF8-char grammar of RFC 3629, section 4.
   */
  function CharLen(s: seq<byte>): (n: nat)
    ensures n <= 4 && n <= |s|
  {
    if |s| == 0 then 0
    else if s[0] <= 0x7F then 1
    else if InRange(s[0], 0xC2, 0xDF) then
      if |s| >= 2 && Tail(s[1]) then 2 else 0
    else if s[0] == 0xE0 then
      if |s| >= 3 && InRange(s[1], 0xA0, 0xBF) && Tail(s[2]) then 3 else 0
    else if InRange(s[0], 0xE1, 0xEC) || InRange(s[0], 0xEE, 0xEF) then
      if |s| >= 3 && Tail(s[1]) && Tail(s[2]) then 3 else 0
    else if s[0] == 0xED then
      if |s| >= 3 && InRange(s[1], 0x80, 0x9F) && Tail(s[2]) then 3 else 0
    else if s[0] == 0xF0 then
      if |s| >= 4 && InRange(s[1], 0x90, 0xBF) && Tail(s[2]) && Tail(s[3]) then 4 else 0
    else if InRange(s[0], 0xF1, 0xF3) then
      if |s| >= 4 && Tail(s[1]) && Tail(s[2]) && Tail(s[3]) then 4 else 0
    else if s[0] == 0xF4 then
      if |s| >= 4 && InRange(s[1], 0x80, 0x8F) && Tail(s[2]) && Tail(s[3]) then 4 else 0
    else 0
  }

  /** `s` is a sequence of well-formed UTF-8 characters. */
  predicate Valid(s: seq<byte>)
    decreases |s|
  {
    |s| == 0 || (CharLen(s) > 0 && Valid(s[CharLen(s)..]))
  }

  /** Pure ASCII is valid UTF-8. */
  lemma {:induction false} AsciiIsValid(s: seq<byte>)
    requires forall i :: 0 <= i < |s| ==> s[i] < 0x80
    ensures Valid(s)
  {
    if |s| > 0 {
      assert CharLen(s) == 1;
      AsciiIsValid(s[1..]);
    }
  }

  /** Concatenating two valid strings gives a valid string. */
  lemma {:induction false} ConcatIsValid(a: seq<byte>, b: seq<byte>)
    requires Valid(a) && Valid(b)
    ensures Valid(a + b)
    decreases |a|
  {
    if |a| == 0 {
      assert a + b == b;
    } else {
      var n := CharLen(a);
      CharLenOfPrefix(a, b);
      assert (a + b)[n..] == a[n..] + b;
      ConcatIsValid(a[n..], b);
    }
  }

  /** The first character of `a` is decided by its first CharLen(a) octets alone. */
  lemma CharLenOfPrefix(a: seq<byte>, b: seq<byte>)
    requires CharLen(a) > 0
    ensures CharLen(a + b) == CharLen(a)
  {
    var n := CharLen(a);
    assert forall i :: 0 <= i < n ==> (a + b)[i] == a[i];
  }

  /** The octets rejected by RFC 3629: overlong forms, surrogates, stray continuations. */
  lemma IllFormedExamples()
    ensures !Valid([0xC0, 0x80])        // overlong encoding of U+0000
    ensures !Valid([0xED, 0xA0, 0x80])  // the surrogate U+D800
    ensures !Valid([0x80])              // a continuation octet with no lead
    ensures !Valid([0xF4, 0x90, 0x80, 0x80])  // beyond U+10FFFF
    ensures !Valid([0xE2, 0x80])        // a truncated three-octet character
    ensures Valid([0xE2, 0x80, 0x80])   // U+2000 EN QUAD
  {
    assert CharLen([0xE2, 0x80, 0x80]) == 3;
    assert [0xE2, 0x80, 0x80][3..] == [];
  }

  /**
   * The code points with the White_Space property (the characters for which
   * Rust's `char::is_whitespace` holds), by the length of their UTF-8 encoding.
   */
  predicate Space1(a: byte) {
    0x09 <= a <= 0x0D || a == 0x20                 // U+0009..U+000D, U+0020
  }

  predicate Space2(a: byte, b: byte) {
    a == 0xC2 && (b == 0x85 || b == 0xA0)           // U+0085, U+00A0
  }

  predicate Space3(a: byte, b: byte, c: byte) {
    || (a == 0xE1 && b == 0x9A && c == 0x80)        // U+1680
    || (a == 0xE2 && b == 0x80 && 0x80 <= c <= 0x8A) // U+2000..U+200A
    || (a == 0xE2 && b == 0x80 && (c == 0xA8 || c == 0xA9 || c == 0xAF))  // U+2028, U+2029, U+202F
    || (a == 0xE2 && b == 0x81 && c == 0x9F)        // U+205F
    || (a == 0xE3 && b == 0x80 && c == 0x80)        // U+3000
  }

  /** Length of the white-space character `s` starts with, 0 if none. */
  function LeadingSpace(s: seq<byte>): (n: nat)
    ensures n <= 3 && n <= |s|
  {
    if |s| >= 1 && Space1(s[0]) then 1
    else if |s| >= 2 && Space2(s[0], s[1]) then 2
    else if |s| >= 3 && Space3(s[0], s[1], s[2]) then 3
    else 0
  }

  /** Length of the white-space character `s` ends with, 0 if none. */
  function TrailingSpace(s: seq<byte>): (n: nat)
    ensures n <= 3 && n <= |s|
  {
    var k := |s|;
    if k >= 1 && Space1(s[k - 1]) then 1
    else if k >= 2 && Space2(s[k - 2], s[k - 1]) then 2
    else if k >= 3 && Space3(s[k - 3], s[k - 2], s[k - 1]) then 3
    else 0
  }

  /** `s` neither starts nor ends with white space. */
  predicate Trimmed(s: seq<byte>) { LeadingSpace(s) == 0 && TrailingSpace(s) == 0 }

  /** `p` is a run of white-space characters, read from the front. */
  predicate SpaceRun(p: seq<byte>)
    decreases |p|
  {
    |p| == 0 || (LeadingSpace(p) > 0 && SpaceRun(p[LeadingSpace(p)..]))
  }

  /** `p` is a run of white-space characters, read from the back. */
  predicate SpaceRunBack(p: seq<byte>)
    decreases |p|
  {
    |p| == 0 || (TrailingSpace(p) > 0 && SpaceRunBack(p[..|p| - TrailingSpace(p)]))
  }

  /** `str::trim_start`. */
  function TrimStart(s: seq<byte>): (r: seq<byte>)
    decreases |s|
  {
    var n := LeadingSpace(s);
    if n == 0 then s else TrimStart(s[n..])
  }

  /** `str::trim_end`. */
  function TrimEnd(s: seq<byte>): (r: seq<byte>)
    decreases |s|
  {
    var n := TrailingSpace(s);
    if n == 0 then s else TrimEnd(s[..|s| - n])
  }

  /** `str::trim`. */
  function Trim(s: seq<byte>): (r: seq<byte>)
  {
    TrimEnd(TrimStart(s))
  }

  /** TrimStart drops a run of white space at the front, and nothing else. */
  lemma {:induction false} TrimStartShape(s: seq<byte>)
    ensures var r := TrimStart(s);
      |r| <= |s| && r == s[|s| - |r|..] && SpaceRun(s[..|s| - |r|]) && LeadingSpace(r) == 0
    decreases |s|
  {
    var n := LeadingSpace(s);
    if n > 0 {
      var r := TrimStart(s[n..]);
      TrimStartShape(s[n..]);
      LeadingSpaceOfLonger(s, |s| - |r|);
      assert s[..|s| - |r|][n..] == s[n..][..|s[n..]| - |r|];
    }
  }

  /** TrimEnd drops a run of white space at the back, and nothing else. */
  lemma {:induction false} TrimEndShape(s: seq<byte>)
    ensures var r := TrimEnd(s);
      |r| <= |s| && r == s[..|r|] && SpaceRunBack(s[|r|..]) && TrailingSpace(r) == 0
    decreases |s|
  {
    var n := TrailingSpace(s);
    if n > 0 {
      var r := TrimEnd(s[..|s| - n]);
      TrimEndShape(s[..|s| - n]);
      TrailingSpaceOfLonger(s, |r|);
      assert s[|r|..][..|s[|r|..]| - n] == s[..|s| - n][|r|..];
    }
  }

  /** Where the text that `Trim(s)` keeps begins in `s`. */
  function TrimOffset(s: seq<byte>): (i: nat)
  {
    var t := TrimStart(s);
    if |t| <= |s| then |s| - |t| else 0
  }

  /**
   * Trim: `s` is a run of white space, then the result, then another run of
   * white space, and the result neither starts nor ends with white space.
   */
  lemma TrimShape(s: seq<byte>)
    ensures var r, i := Trim(s), TrimOffset(s);
      && Trimmed(r)
      && i + |r| <= |s| && r == s[i..i + |r|]
      && SpaceRun(s[..i]) && SpaceRunBack(s[i + |r|..])
  {
    var t := TrimStart(s);
    TrimStartShape(s);
    var r := TrimEnd(t);
    TrimEndShape(t);
    var i := |s| - |t|;
    assert TrimOffset(s) == i && Trim(s) == r;
    NoLeadingSpaceInPrefix(t, |r|);
    assert Trimmed(r);
    assert t == s[i..];
    assert r == s[i..i + |r|];
    assert s[i + |r|..] == t[|r|..];
  }

  /** An already trimmed string is left as it is, so trimming is idempotent. */
  lemma TrimIdempotent(s: seq<byte>)
    ensures Trimmed(s) ==> Trim(s) == s
    ensures Trim(Trim(s)) == Trim(s)
  {
    TrimShape(s);
    var r := Trim(s);
    assert TrimStart(r) == r && TrimEnd(r) == r;
  }

  /**
   * Trimming leaves nothing exactly when the input is white space only; in
   * particular the empty field that a missing part defaults to stays empty.
   */
  lemma TrimEmptyIff(s: seq<byte>)
    ensures Trim(s) == [] <==> SpaceRun(s)
  {
    var t := TrimStart(s);
    TrimStartShape(s);
    TrimEndKeepsSomething(t);
    if |t| == 0 {
      assert s[..|s|] == s;
    }
    SpaceRunTrimsAway(s);
  }

  /** A white-space run is removed entirely by trim_start. */
  lemma {:induction false} SpaceRunTrimsAway(p: seq<byte>)
    ensures SpaceRun(p) ==> TrimStart(p) == []
    decreases |p|
  {
    if |p| > 0 && LeadingSpace(p) > 0 {
      SpaceRunTrimsAway(p[LeadingSpace(p)..]);
    }
  }

  /**
   * trim_end empties a non-empty string only when it starts with white
   * space: the last character it removes is the string's first.
   */
  lemma {:induction false} TrimEndKeepsSomething(t: seq<byte>)
    ensures TrimEnd(t) == [] && |t| > 0 ==> LeadingSpace(t) > 0
    decreases |t|
  {
    var n := TrailingSpace(t);
    if n > 0 {
      var u := t[..|t| - n];
      TrimEndKeepsSomething(u);
      if |u| > 0 {
        LeadingSpaceOfPrefix(t, |u|);
      }
    }
  }

  /** Trimming never introduces an octet that was not in the input. */
  lemma TrimKeepsOctets(s: seq<byte>, b: byte)
    requires b !in s
    ensures b !in Trim(s)
  {
    TrimShape(s);
    var r := Trim(s);
    var i := TrimOffset(s);
    assert forall j :: 0 <= j < |r| ==> r[j] == s[i + j];
  }

  // Helpers for the contracts of TrimStart, TrimEnd and Trim.

  lemma LeadingSpaceOfLonger(s: seq<byte>, k: nat)
    requires LeadingSpace(s) <= k <= |s|
    ensures LeadingSpace(s[..k]) == LeadingSpace(s)
  {
    var p := s[..k];
    assert forall i :: 0 <= i < k ==> p[i] == s[i];
  }

  lemma TrailingSpaceOfLonger(s: seq<byte>, k: nat)
    requires k <= |s| - TrailingSpace(s)
    ensures TrailingSpace(s[k..]) == TrailingSpace(s)
  {
    var p := s[k..];
    assert forall i :: 0 <= i < |p| ==> p[i] == s[k + i];
  }

  lemma LeadingSpaceOfPrefix(t: seq<byte>, k: nat)
    requires k <= |t|
    ensures LeadingSpace(t[..k]) > 0 ==> LeadingSpace(t) > 0
  {
    var p := t[..k];
    assert forall i :: 0 <= i < k ==> p[i] == t[i];
  }

  lemma NoLeadingSpaceInPrefix(t: seq<byte>, k: nat)
    requires LeadingSpace(t) == 0 && k <= |t|
    ensures LeadingSpace(t[..k]) == 0
  {
    var p := t[..k];
    assert forall i :: 0 <= i < k ==> p[i] == t[i];
  }
}
