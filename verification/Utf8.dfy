/**
 UTF-8 as in section 3 of RFC 3629, and the byte-bounded prefix the context
 assembler cuts text with.
 */
module Utf8 {
  type Byte = i: int | 0 <= i < 256

  /** Six payload bits per continuation byte. */
  function EncodeChar(c: char): (b: seq<Byte>)
    ensures 1 <= |b| <= 4
  {
    var n := c as int;
    var n1 := n / 64;
    var n2 := n1 / 64;
    var n3 := n2 / 64;
    if n < 0x80 then [n]
    else if n < 0x800 then [0xC0 + n1, 0x80 + n % 64]
    else if n < 0x10000 then [0xE0 + n2, 0x80 + n1 % 64, 0x80 + n % 64]
    else [0xF0 + n3, 0x80 + n2 % 64, 0x80 + n1 % 64, 0x80 + n % 64]
  }

  function Encode(s: string): seq<Byte> {
    if s == "" then [] else EncodeChar(s[0]) + Encode(s[1..])
  }

  function Bytes(s: string): nat { |Encode(s)| }

  predicate Tail(b: Byte) { 0x80 <= b < 0xC0 }

  /** How many bytes a well-formed character at the start takes, or 0. */
  function HeadLength(b: seq<Byte>): (n: nat)
    ensures n <= |b|
  {
    if b == [] then 0
    else if b[0] < 0x80 then 1
    else if 0xC2 <= b[0] < 0xE0 && |b| >= 2 && Tail(b[1]) then 2
    else if 0xE0 <= b[0] < 0xF0 && |b| >= 3 && Tail(b[1]) && Tail(b[2])
            && (b[0] == 0xE0 ==> b[1] >= 0xA0) && (b[0] == 0xED ==> b[1] < 0xA0) then 3
    else if 0xF0 <= b[0] <= 0xF4 && |b| >= 4 && Tail(b[1]) && Tail(b[2]) && Tail(b[3])
            && (b[0] == 0xF0 ==> b[1] >= 0x90) && (b[0] == 0xF4 ==> b[1] < 0x90) then 4
    else 0
  }

  function HeadValue(b: seq<Byte>): (n: int)
    requires HeadLength(b) > 0
    ensures 0 <= n < 0xD800 || 0xE000 <= n < 0x110000
  {
    var first: int := b[0];
    match HeadLength(b)
    case 1 => first
    case 2 => var second: int := b[1]; (first - 0xC0) * 64 + second - 0x80
    case 3 => var second: int := b[1]; var third: int := b[2];
      ((first - 0xE0) * 64 + second - 0x80) * 64 + third - 0x80
    case _ => var second: int := b[1]; var third: int := b[2]; var fourth: int := b[3];
      (((first - 0xF0) * 64 + second - 0x80) * 64 + third - 0x80) * 64 + fourth - 0x80
  }

  /** `bytes.decode("utf-8", errors="ignore")`. */
  function DecodeIgnore(b: seq<Byte>): string
    decreases |b|
  {
    if b == [] then ""
    else if HeadLength(b) > 0 then [HeadValue(b) as char] + DecodeIgnore(b[HeadLength(b)..])
    else DecodeIgnore(b[1..])
  }

  /** `_utf8_prefix`. */
  function Utf8Prefix(value: string, budget: int): string {
    if budget <= 0 then ""
    else
      var encoded := Encode(value);
      if |encoded| <= budget then value else DecodeIgnore(encoded[..budget])
  }

  lemma HeadOfEncoding(c: char, rest: seq<Byte>)
    ensures HeadLength(EncodeChar(c) + rest) == |EncodeChar(c)|
    ensures HeadValue(EncodeChar(c) + rest) as char == c
  {
    var b, e := EncodeChar(c) + rest, EncodeChar(c);
    assert forall i :: 0 <= i < |e| ==> b[i] == e[i];
    assert HeadLength(b) == |e|;
    assert HeadValue(b) == c as int;
  }

  /** Continuation bytes are never a start. */
  lemma {:induction false} TailsDecodeToNothing(b: seq<Byte>)
    requires forall i :: 0 <= i < |b| ==> Tail(b[i])
    ensures DecodeIgnore(b) == ""
  {
    if b != [] {
      TailsDecodeToNothing(b[1..]);
    }
  }

  lemma CutCharDecodesToNothing(c: char, k: nat)
    requires k < |EncodeChar(c)|
    ensures DecodeIgnore(EncodeChar(c)[..k]) == ""
  {
    var b := EncodeChar(c)[..k];
    if k > 0 {
      assert HeadLength(b) == 0;
      TailsDecodeToNothing(b[1..]);
    }
  }

  lemma {:induction false} RoundTrip(s: string)
    ensures DecodeIgnore(Encode(s)) == s
  {
    if s != "" {
      HeadOfEncoding(s[0], Encode(s[1..]));
      RoundTrip(s[1..]);
      assert Encode(s)[|EncodeChar(s[0])|..] == Encode(s[1..]);
    }
  }

  lemma EncodeIsInjective(s: string, t: string)
    requires Encode(s) == Encode(t)
    ensures s == t
  {
    RoundTrip(s);
    RoundTrip(t);
  }

  lemma {:induction false} EncodeAppend(s: string, t: string)
    ensures Encode(s + t) == Encode(s) + Encode(t)
  {
    hide EncodeChar;
    if s == "" {
      assert s + t == t;
    } else {
      EncodeAppend(s[1..], t);
      assert (s + t)[1..] == s[1..] + t;
    }
  }

  /** Longest code-point prefix of v that fits, defined character by character. */
  ghost function Fitting(v: string, budget: nat): string {
    if v == "" || |EncodeChar(v[0])| > budget then ""
    else [v[0]] + Fitting(v[1..], budget - |EncodeChar(v[0])|)
  }

  lemma {:induction false} CutDecodesToFitting(v: string, budget: nat)
    requires budget <= Bytes(v)
    ensures DecodeIgnore(Encode(v)[..budget]) == Fitting(v, budget)
  {
    hide EncodeChar, HeadLength, HeadValue;
    if v != "" {
      var head, rest := EncodeChar(v[0]), Encode(v[1..]);
      if |head| <= budget {
        assert Encode(v)[..budget] == head + rest[..budget - |head|];
        HeadOfEncoding(v[0], rest[..budget - |head|]);
        assert (head + rest[..budget - |head|])[|head|..] == rest[..budget - |head|];
        CutDecodesToFitting(v[1..], budget - |head|);
      } else {
        assert Encode(v)[..budget] == head[..budget];
        CutCharDecodesToNothing(v[0], budget);
      }
    }
  }

  lemma {:induction false} FittingWhole(v: string, budget: nat)
    requires Bytes(v) <= budget
    ensures Fitting(v, budget) == v
  {
    if v != "" {
      FittingWhole(v[1..], budget - |EncodeChar(v[0])|);
    }
  }

  lemma PrefixIsFitting(v: string, budget: int)
    ensures Utf8Prefix(v, budget) == Fitting(v, if budget <= 0 then 0 else budget)
  {
    if budget > 0 {
      if Bytes(v) <= budget {
        FittingWhole(v, budget);
      } else {
        CutDecodesToFitting(v, budget);
      }
    }
  }

  lemma {:induction false} FittingFits(v: string, budget: nat)
    ensures Fitting(v, budget) <= v && Bytes(Fitting(v, budget)) <= budget
    ensures var r := Fitting(v, budget);
            r != v ==> |EncodeChar(v[|r|])| > budget - Bytes(r)
  {
    if v != "" && |EncodeChar(v[0])| <= budget {
      FittingFits(v[1..], budget - |EncodeChar(v[0])|);
      assert Fitting(v, budget)[1..] == Fitting(v[1..], budget - |EncodeChar(v[0])|);
    }
  }

  lemma {:induction false} FittingIsLongest(v: string, budget: nat, p: string)
    requires p <= v && Bytes(p) <= budget
    ensures |p| <= |Fitting(v, budget)|
  {
    if p != "" {
      FittingIsLongest(v[1..], budget - |EncodeChar(v[0])|, p[1..]);
    }
  }

  /** p is the longest prefix of v whose encoding takes at most budget bytes. */
  ghost predicate LongestFitting(v: string, budget: nat, p: string) {
    && p <= v && Bytes(p) <= budget
    && forall q :: q <= v && Bytes(q) <= budget ==> |q| <= |p|
  }

  /**
   Slicing the encoded bytes and dropping the incomplete tail gives the longest
   prefix of whole characters that fits; a cut wastes less than the next
   character's length, hence at most three bytes.
   */
  lemma PrefixIsLongestFitting(v: string, budget: int)
    ensures LongestFitting(v, if budget <= 0 then 0 else budget, Utf8Prefix(v, budget))
    ensures var r := Utf8Prefix(v, budget);
            r != v && budget >= 0 ==>
              budget - Bytes(r) < |EncodeChar(v[|r|])| && budget - Bytes(r) <= 3
  {
    var b := if budget <= 0 then 0 else budget;
    PrefixIsFitting(v, budget);
    FittingFits(v, b);
    forall q | q <= v && Bytes(q) <= b ensures |q| <= |Utf8Prefix(v, budget)| {
      FittingIsLongest(v, b, q);
    }
  }

  /** Comparing byte counts tells whether a prefix is proper. */
  lemma ShorterByBytes(p: string, v: string)
    requires p <= v
    ensures Bytes(p) <= Bytes(v) && (Bytes(p) == Bytes(v) <==> p == v)
  {
    hide EncodeChar;
    var rest := v[|p|..];
    assert v == p + rest;
    EncodeAppend(p, rest);
    assert rest != "" ==> Encode(rest) == EncodeChar(rest[0]) + Encode(rest[1..]);
  }
}
