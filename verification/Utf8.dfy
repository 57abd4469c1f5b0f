/** Truncation of UTF-8 text at a byte bound. */
module Utf8 {
  import opened Prelude

  predicate IsTail(b: u8) { 0x80 <= b <= 0xBF }

  /** Length of a character by its first byte; 0 if no character starts with it. */
  function LeadLen(b: u8): nat
  {
    if b <= 0x7F then 1
    else if 0xC2 <= b <= 0xDF then 2
    else if 0xE0 <= b <= 0xEF then 3
    else if 0xF0 <= b <= 0xF4 then 4
    else 0
  }

  /** One character, by the syntax of section 4 of RFC 3629. */
  predicate IsChar(c: Bytes)
  {
    && c != []
    && |c| == LeadLen(c[0])
    && (forall i :: 1 <= i < |c| ==> IsTail(c[i]))
    && (c[0] == 0xE0 ==> c[1] >= 0xA0)
    && (c[0] == 0xED ==> c[1] <= 0x9F)
    && (c[0] == 0xF0 ==> c[1] >= 0x90)
    && (c[0] == 0xF4 ==> c[1] <= 0x8F)
  }

  /** A sequence of characters. */
  predicate Valid(s: Bytes)
  {
    s == [] ||
    (var n := LeadLen(s[0]);
     1 <= n <= |s| && IsChar(s[..n]) && Valid(s[n..]))
  }

  // ----------------------------------------------- text as code points

  /** A code point that text may hold: no surrogates. */
  predicate IsScalar(cp: nat) { cp <= 0x10FFFF && !(0xD800 <= cp <= 0xDFFF) }

  /** The encoding of section 3 of RFC 3629: six bits to a tail byte, what is left in the first. */
  function Encode(cp: nat): Bytes
    requires IsScalar(cp)
  {
    if cp < 0x80 then [cp]
    else if cp < 0x800 then [0xC0 + cp / 64, 0x80 + cp % 64]
    else if cp < 0x1_0000 then [0xE0 + cp / 64 / 64, 0x80 + cp / 64 % 64, 0x80 + cp % 64]
    else [0xF0 + cp / 64 / 64 / 64, 0x80 + cp / 64 / 64 % 64, 0x80 + cp / 64 % 64, 0x80 + cp % 64]
  }

  function EncodeAll(cps: seq<nat>): Bytes
    requires forall cp :: cp in cps ==> IsScalar(cp)
  {
    if cps == [] then [] else Encode(cps[0]) + EncodeAll(cps[1..])
  }

  lemma EncodeIsChar(cp: nat)
    requires IsScalar(cp)
    ensures IsChar(Encode(cp))
  {
  }

  lemma SixBits(q: nat, r: nat)
    requires r < 64
    ensures (q * 64 + r) / 64 == q && (q * 64 + r) % 64 == r
  {
  }

  lemma TwoBytes(a: u8, b: u8) returns (cp: nat)
    requires IsChar([a, b])
    ensures IsScalar(cp) && [a, b] == Encode(cp)
  {
    var s := [a, b];
    assert IsTail(s[1]) && LeadLen(a) == 2;
    SixBits(a - 0xC0, b - 0x80);
    cp := (a as int - 0xC0) * 64 + (b as int - 0x80);
  }

  lemma ThreeBytes(a: u8, b: u8, c: u8) returns (cp: nat)
    requires IsChar([a, b, c])
    ensures IsScalar(cp) && [a, b, c] == Encode(cp)
  {
    var s := [a, b, c];
    assert IsTail(s[1]) && IsTail(s[2]) && LeadLen(a) == 3;
    assert (a == 0xE0 ==> b >= 0xA0) && (a == 0xED ==> b <= 0x9F);
    hide IsChar;
    var top := (a as int - 0xE0) * 64 + (b as int - 0x80);
    SixBits(a - 0xE0, b - 0x80);
    SixBits(top, c - 0x80);
    cp := top * 64 + (c as int - 0x80);
    assert 0x800 <= cp < 0x1_0000 && !(0xD800 <= cp <= 0xDFFF);
  }

  lemma FourBytes(a: u8, b: u8, c: u8, d: u8) returns (cp: nat)
    requires IsChar([a, b, c, d])
    ensures IsScalar(cp) && [a, b, c, d] == Encode(cp)
  {
    var s := [a, b, c, d];
    assert IsTail(s[1]) && IsTail(s[2]) && IsTail(s[3]) && LeadLen(a) == 4;
    assert (a == 0xF0 ==> b >= 0x90) && (a == 0xF4 ==> b <= 0x8F);
    hide IsChar;
    var top := (a as int - 0xF0) * 64 + (b as int - 0x80);
    var mid := top * 64 + (c as int - 0x80);
    SixBits(a - 0xF0, b - 0x80);
    SixBits(top, c - 0x80);
    SixBits(mid, d - 0x80);
    cp := mid * 64 + (d as int - 0x80);
    assert 0x1_0000 <= cp <= 0x10FFFF;
  }

  lemma CharIsEncode(c: Bytes) returns (cp: nat)
    requires IsChar(c)
    ensures IsScalar(cp) && c == Encode(cp)
  {
    if |c| == 1 {
      cp := c[0];
    } else if |c| == 2 {
      assert c == [c[0], c[1]];
      cp := TwoBytes(c[0], c[1]);
    } else if |c| == 3 {
      assert c == [c[0], c[1], c[2]];
      cp := ThreeBytes(c[0], c[1], c[2]);
    } else {
      assert c == [c[0], c[1], c[2], c[3]];
      cp := FourBytes(c[0], c[1], c[2], c[3]);
    }
  }

  lemma EncodeCons(cp: nat, cps: seq<nat>)
    requires IsScalar(cp) && forall p :: p in cps ==> IsScalar(p)
    ensures (forall p :: p in [cp] + cps ==> IsScalar(p)) && EncodeAll([cp] + cps) == Encode(cp) + EncodeAll(cps)
  {
    assert ([cp] + cps)[1..] == cps;
  }

  lemma SplitFirst(s: Bytes) returns (c: Bytes, rest: Bytes)
    requires Valid(s) && s != []
    ensures s == c + rest && IsChar(c) && Valid(rest) && |rest| < |s|
  {
    hide IsChar;
    var n := LeadLen(s[0]);
    c, rest := s[..n], s[n..];
  }

  /** Valid text is the encoding of a sequence of code points. */
  lemma {:induction false} ValidIsEncoded(s: Bytes) returns (cps: seq<nat>)
    requires Valid(s)
    ensures (forall cp :: cp in cps ==> IsScalar(cp)) && s == EncodeAll(cps)
    decreases |s|
  {
    cps := [];
    if s != [] {
      hide Encode, EncodeAll, IsChar, Valid, IsScalar;
      var c, rest := SplitFirst(s);
      var cp := CharIsEncode(c);
      var more := ValidIsEncoded(rest);
      EncodeCons(cp, more);
      cps := [cp] + more;
    }
  }

  lemma {:induction false} EncodedIsValid(cps: seq<nat>)
    requires forall cp :: cp in cps ==> IsScalar(cp)
    ensures Valid(EncodeAll(cps))
  {
    if cps != [] {
      var c, rest := Encode(cps[0]), EncodeAll(cps[1..]);
      EncodeIsChar(cps[0]);
      EncodedIsValid(cps[1..]);
      hide Encode;
      assert (c + rest)[..|c|] == c && (c + rest)[|c|..] == rest && (c + rest)[0] == c[0];
    }
  }

  /** Text is valid exactly when it is the encoding of some code points. */
  lemma ValidIff(s: Bytes)
    ensures Valid(s) <==> exists cps: seq<nat> :: (forall cp :: cp in cps ==> IsScalar(cp)) && s == EncodeAll(cps)
  {
    if Valid(s) { var cps := ValidIsEncoded(s); }
    if cps: seq<nat> :| (forall cp :: cp in cps ==> IsScalar(cp)) && s == EncodeAll(cps) { EncodedIsValid(cps); }
  }

  // ------------------------------------------------------------ truncation

  /** `str::is_char_boundary`, which looks at one byte. */
  predicate IsCharBoundary(s: Bytes, i: nat)
  {
    i == 0 || i == |s| || (i < |s| && !(0x80 <= s[i] <= 0xBF))
  }

  /** In valid text the byte test finds exactly the ends of characters. */
  lemma {:induction false} BoundaryIff(s: Bytes, i: nat)
    requires Valid(s) && i <= |s|
    ensures IsCharBoundary(s, i) <==> Valid(s[..i])
    ensures IsCharBoundary(s, i) ==> Valid(s[i..])
  {
    if i > 0 {
      FirstChar(s, i);
      PrefixOfText(s, i);
      hide LeadLen, IsChar, IsTail, Valid;
      var n := LeadLen(s[0]);
      if i >= n {
        BoundaryIff(s[n..], i - n);
        assert s[n..][i - n..] == s[i..];
        if i == n && n < |s| { FirstChar(s[n..], 0); }
      }
    }
  }

  /** A prefix of text is text exactly when it holds the first character and goes on as text. */
  lemma PrefixOfText(s: Bytes, i: nat)
    requires Valid(s) && 0 < i <= |s|
    ensures var n := LeadLen(s[0]);
            1 <= n <= |s| && (Valid(s[..i]) <==> i >= n && Valid(s[n..][..i - n]))
  {
    hide IsChar, LeadLen;
    var n := LeadLen(s[0]);
    assert s[..i][0] == s[0];
    if i >= n { assert s[..i][..n] == s[..n] && s[..i][n..] == s[n..][..i - n]; }
  }

  /** Text starts with a byte that is no tail, and the rest of its first character are tails. */
  lemma FirstChar(s: Bytes, i: nat)
    requires Valid(s) && s != [] && i <= |s|
    ensures 1 <= LeadLen(s[0]) <= |s| && IsChar(s[..LeadLen(s[0])]) && Valid(s[LeadLen(s[0])..])
    ensures !(0x80 <= s[0] <= 0xBF)
    ensures 0 < i < LeadLen(s[0]) ==> 0x80 <= s[i] <= 0xBF
  {
    if 0 < i < LeadLen(s[0]) { assert IsTail(s[..LeadLen(s[0])][i]); }
  }

  /** Some boundary lies among any four consecutive positions. */
  lemma {:induction false} BoundaryNear(s: Bytes, i: nat) returns (j: nat)
    requires Valid(s) && i <= |s|
    ensures j <= i < j + 4 && IsCharBoundary(s, j)
  {
    if s == [] || i < LeadLen(s[0]) {
      j := 0;
    } else {
      var n := LeadLen(s[0]);
      var k := BoundaryNear(s[n..], i - n);
      j := n + k;
      if k == 0 && n < |s| { assert !IsTail(s[n..][0]); }
    }
  }

  /** The longest valid prefix of at most `max` bytes. */
  method TruncateBytes(s: Bytes, max: nat) returns (r: Bytes)
    requires Valid(s)
    ensures r <= s && |r| <= max && Valid(r)
    ensures forall k :: 0 <= k <= max && k <= |s| && Valid(s[..k]) ==> k <= |r|
    ensures |s| <= max ==> r == s
    ensures |s| > max ==> |r| + 3 >= max
  {
    if |s| <= max {
      assert s[..|s|] == s;
      return s;
    }
    var end := max;
    ghost var near := BoundaryNear(s, max);
    while end > 0 && !IsCharBoundary(s, end)
      invariant near <= end <= max
      invariant forall k :: end < k <= max ==> !IsCharBoundary(s, k)
    {
      end := end - 1;
    }
    BoundaryIff(s, end);
    forall k | 0 <= k <= max && Valid(s[..k])
      ensures k <= end
    {
      BoundaryIff(s, k);
    }
    r := s[..end];
  }
}
