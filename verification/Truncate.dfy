/**
 truncated(toByteCount:) of String+OWS.swift, on a string as the sequence of its characters,
 each given by its UTF-8 bytes.
 */
module Truncate {
  import opened Wire

  /** A character takes at least one byte (section 3 of RFC 3629). */
  type Character = b: Bytes | b != [] witness [0]

  function Utf8(s: seq<Character>): Bytes {
    if s == [] then [] else s[0] + Utf8(s[1..])
  }

  /** The number of characters that a left-to-right pass keeps. */
  function Fitting(s: seq<Character>, byteCount: nat): (n: nat)
    ensures n <= |s|
  {
    if s == [] || |s[0]| > byteCount then 0 else 1 + Fitting(s[1..], byteCount - |s[0]|)
  }

  function Size(s: seq<Character>, n: nat): nat
    requires n <= |s|
  {
    |Utf8(s[..n])|
  }

  lemma SizeStep(s: seq<Character>, n: nat)
    requires 0 < n <= |s|
    ensures Size(s, n) == |s[0]| + Size(s[1..], n - 1)
  {
    assert s[..n][1..] == s[1..][..n - 1];
  }

  /** A prefix fits exactly when it is not longer than the pass keeps. */
  lemma {:induction false} FitsIffKept(s: seq<Character>, byteCount: nat, n: nat)
    requires n <= |s|
    ensures Size(s, n) <= byteCount <==> n <= Fitting(s, byteCount)
    decreases |s|
  {
    if n > 0 {
      SizeStep(s, n);
      if |s[0]| <= byteCount {
        FitsIffKept(s[1..], byteCount - |s[0]|, n - 1);
      }
    }
  }

  lemma {:induction false} SizeGrows(s: seq<Character>, m: nat, n: nat)
    requires m < n <= |s|
    ensures Size(s, m) < Size(s, n)
    decreases |s|
  {
    SizeStep(s, n);
    if m > 0 {
      SizeStep(s, m);
      SizeGrows(s[1..], m - 1, n - 1);
    }
  }

  /**
   The search keeps the longest prefix of whole characters that fits the budget, although a
   midpoint that fits exactly becomes the upper bound and not the lower one.
   */
  method Truncated(s: seq<Character>, byteCount: nat) returns (r: seq<Character>)
    ensures r == s[..Fitting(s, byteCount)]
    ensures |Utf8(r)| <= byteCount
    ensures forall n :: |r| < n <= |s| ==> Size(s, n) > byteCount
  {
    ghost var best := Fitting(s, byteCount);
    var lower, upper := 0, |s|;
    while lower < upper
      invariant 0 <= lower <= best <= upper <= |s|
      decreases upper - lower
    {
      FitsIffKept(s, byteCount, upper);
      var upperData := Utf8(s[..upper]);
      if |upperData| <= byteCount {
        break;
      }
      if upper - lower == 1 {
        upper := lower;
        break;
      }
      var mid := (lower + upper) / 2;
      FitsIffKept(s, byteCount, mid);
      FitsIffKept(s, byteCount, mid + 1);
      SizeGrows(s, mid, mid + 1);
      var midpointData := Utf8(s[..mid]);
      if |midpointData| < byteCount {
        lower := mid;
      } else {
        upper := mid;
      }
    }
    r := s[..upper];
    forall n | 0 <= n <= |s|
      ensures Size(s, n) <= byteCount <==> n <= best
    {
      FitsIffKept(s, byteCount, n);
    }
    assert Size(s, best) <= byteCount;
  }

  /** Truncating again changes nothing, and a larger budget never keeps less. */
  lemma TruncatingTwice(s: seq<Character>, small: nat, large: nat)
    requires small <= large
    ensures Fitting(s, small) <= Fitting(s, large)
    ensures Fitting(s[..Fitting(s, large)], small) == Fitting(s, small)
  {
    var a, b := Fitting(s, small), Fitting(s, large);
    var t := s[..b];
    FitsIffKept(s, small, a);
    FitsIffKept(s, large, a);
    var c := Fitting(t, small);
    FitsIffKept(t, small, c);
    FitsIffKept(t, small, a);
    FitsIffKept(s, small, c);
    assert t[..a] == s[..a] && t[..c] == s[..c];
  }
}
