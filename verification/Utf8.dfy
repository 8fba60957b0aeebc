/** UTF-8 as section 3 of RFC 3629 defines it, by the encoding of each Unicode scalar value. */
module Utf8 {
  import opened Bytes
  import opened ArchivePath

  predicate Scalar(c: nat) {
    c < 0xd800 || 0xe000 <= c < 0x11_0000
  }

  /** The bytes of a scalar value, as numbers. */
  function Encode(c: nat): (bytes: seq<nat>)
    ensures 1 <= |bytes| <= 4
  {
    if c < 0x80 then [c]
    else if c < 0x800 then [0xc0 + c / 64, 0x80 + c % 64]
    else if c < 0x1_0000 then [0xe0 + c / 4096, 0x80 + c / 64 % 64, 0x80 + c % 64]
    else [0xf0 + c / 262144, 0x80 + c / 4096 % 64, 0x80 + c / 64 % 64, 0x80 + c % 64]
  }

  predicate Starts(s: Bytes, c: nat) {
    |Encode(c)| <= |s| && forall k :: 0 <= k < |Encode(c)| ==> s[k] as int == Encode(c)[k]
  }

  /** The bytes are those of these scalar values, one after the other. */
  predicate Spells(s: Bytes, codes: seq<nat>)
    decreases |codes|
  {
    if codes == [] then
      s == []
    else
      Scalar(codes[0]) && Starts(s, codes[0]) && Spells(s[|Encode(codes[0])|..], codes[1..])
  }

  lemma Order(b: bv8, c: bv8)
    ensures b <= c <==> b as int <= c as int
  {
  }

  /** The tests on leading and continuation bytes, as numbers. */
  lemma Ranges(b: bv8)
    ensures b <= 0x7f <==> b as int <= 0x7f
    ensures 0xc2 <= b <= 0xdf <==> 0xc2 <= b as int <= 0xdf
    ensures 0xe0 <= b <= 0xef <==> 0xe0 <= b as int <= 0xef
    ensures 0xf0 <= b <= 0xf4 <==> 0xf0 <= b as int <= 0xf4
    ensures b == 0xe0 <==> b as int == 0xe0
    ensures b == 0xed <==> b as int == 0xed
    ensures b == 0xf0 <==> b as int == 0xf0
    ensures b == 0xf4 <==> b as int == 0xf4
  {
    Order(b, 0x7f);
    Order(0xc2, b);
    Order(b, 0xdf);
    Order(0xe0, b);
    Order(b, 0xef);
    Order(0xf0, b);
    Order(b, 0xf4);
  }

  lemma FollowRanges(b: bv8)
    ensures Continuation(b) <==> 0x80 <= b as int <= 0xbf
    ensures 0xa0 <= b <==> 0xa0 <= b as int
    ensures b <= 0x9f <==> b as int <= 0x9f
    ensures 0x90 <= b <==> 0x90 <= b as int
    ensures b <= 0x8f <==> b as int <= 0x8f
  {
    Order(0x80, b);
    Order(b, 0xbf);
    Order(0xa0, b);
    Order(b, 0x9f);
    Order(0x90, b);
    Order(b, 0x8f);
  }

  // ---------- Numbers of two, three and four bytes ----------

  lemma Two(x: nat, y: nat, c: nat)
    requires 0x80 <= c < 0x800
    ensures x == 0xc0 + c / 64 && y == 0x80 + c % 64 ==> 0xc2 <= x <= 0xdf && 0x80 <= y <= 0xbf
  {
  }

  lemma TwoBack(x: nat, y: nat) returns (c: nat)
    requires 0xc2 <= x <= 0xdf && 0x80 <= y <= 0xbf
    ensures 0x80 <= c < 0x800 && x == 0xc0 + c / 64 && y == 0x80 + c % 64
  {
    c := (x - 0xc0) * 64 + (y - 0x80);
  }

  lemma Three(x: nat, y: nat, z: nat, c: nat)
    requires 0x800 <= c < 0x1_0000 && Scalar(c)
    requires x == 0xe0 + c / 4096 && y == 0x80 + c / 64 % 64 && z == 0x80 + c % 64
    ensures 0xe0 <= x <= 0xef && 0x80 <= y <= 0xbf && 0x80 <= z <= 0xbf
    ensures (x == 0xe0 ==> 0xa0 <= y) && (x == 0xed ==> y <= 0x9f)
  {
    var u, v, w := c / 4096, c / 64 % 64, c % 64;
    assert c == 4096 * u + 64 * v + w;
  }

  lemma ThreeBack(x: nat, y: nat, z: nat) returns (c: nat)
    requires 0xe0 <= x <= 0xef && 0x80 <= y <= 0xbf && 0x80 <= z <= 0xbf
    requires (x == 0xe0 ==> 0xa0 <= y) && (x == 0xed ==> y <= 0x9f)
    ensures 0x800 <= c < 0x1_0000 && Scalar(c)
    ensures x == 0xe0 + c / 4096 && y == 0x80 + c / 64 % 64 && z == 0x80 + c % 64
  {
    c := (x - 0xe0) * 4096 + (y - 0x80) * 64 + (z - 0x80);
    assert c / 64 == (x - 0xe0) * 64 + (y - 0x80);
  }

  lemma Four(x: nat, y: nat, z: nat, w: nat, c: nat)
    requires 0x1_0000 <= c < 0x11_0000
    requires x == 0xf0 + c / 262144 && y == 0x80 + c / 4096 % 64 && z == 0x80 + c / 64 % 64 && w == 0x80 + c % 64
    ensures 0xf0 <= x <= 0xf4 && 0x80 <= y <= 0xbf && 0x80 <= z <= 0xbf && 0x80 <= w <= 0xbf
    ensures (x == 0xf0 ==> 0x90 <= y) && (x == 0xf4 ==> y <= 0x8f)
  {
    assert c / 4096 == 64 * (c / 262144) + c / 4096 % 64;
  }

  lemma FourBack(x: nat, y: nat, z: nat, w: nat) returns (c: nat)
    requires 0xf0 <= x <= 0xf4 && 0x80 <= y <= 0xbf && 0x80 <= z <= 0xbf && 0x80 <= w <= 0xbf
    requires (x == 0xf0 ==> 0x90 <= y) && (x == 0xf4 ==> y <= 0x8f)
    ensures 0x1_0000 <= c < 0x11_0000
    ensures x == 0xf0 + c / 262144 && y == 0x80 + c / 4096 % 64 && z == 0x80 + c / 64 % 64 && w == 0x80 + c % 64
  {
    c := (x - 0xf0) * 262144 + (y - 0x80) * 4096 + (z - 0x80) * 64 + (w - 0x80);
    assert c / 64 == (x - 0xf0) * 4096 + (y - 0x80) * 64 + (z - 0x80);
    assert c / 4096 == (x - 0xf0) * 64 + (y - 0x80);
  }

  // ---------- The checks are the encoding ----------

  lemma FirstOfTwo(s: Bytes) returns (c: nat)
    requires IsUtf8(s) && s != [] && 0xc2 <= s[0] <= 0xdf
    ensures Scalar(c) && Starts(s, c) && IsUtf8(s[|Encode(c)|..])
  {
    hide Continuation;
    Ranges(s[0]);
    FollowRanges(s[1]);
    c := TwoBack(s[0] as int, s[1] as int);
  }

  lemma StartsThree(s: Bytes, c: nat)
    requires 0x800 <= c < 0x1_0000 && |s| >= 3
    requires s[0] as int == 0xe0 + c / 4096 && s[1] as int == 0x80 + c / 64 % 64 && s[2] as int == 0x80 + c % 64
    ensures |Encode(c)| == 3 && Starts(s, c)
  {
  }

  lemma ThreeChecked(s: Bytes)
    requires IsUtf8(s) && s != [] && 0xe0 <= s[0] <= 0xef
    ensures |s| >= 3 && IsUtf8(s[3..]) && Continuation(s[1]) && Continuation(s[2])
    ensures (s[0] == 0xe0 ==> 0xa0 <= s[1]) && (s[0] == 0xed ==> s[1] <= 0x9f)
  {
    hide Continuation;
  }

  lemma FirstOfThree(s: Bytes) returns (c: nat)
    requires IsUtf8(s) && s != [] && 0xe0 <= s[0] <= 0xef
    ensures Scalar(c) && Starts(s, c) && IsUtf8(s[|Encode(c)|..])
  {
    hide Continuation, IsUtf8, Starts, Encode;
    ThreeChecked(s);
    Ranges(s[0]);
    FollowRanges(s[1]);
    FollowRanges(s[2]);
    c := ThreeBack(s[0] as int, s[1] as int, s[2] as int);
    StartsThree(s, c);
  }

  lemma FirstOfFour(s: Bytes) returns (c: nat)
    requires IsUtf8(s) && s != [] && 0xf0 <= s[0] <= 0xf4
    ensures Scalar(c) && Starts(s, c) && IsUtf8(s[|Encode(c)|..])
  {
    hide Continuation;
    Ranges(s[0]);
    FollowRanges(s[1]);
    FollowRanges(s[2]);
    FollowRanges(s[3]);
    c := FourBack(s[0] as int, s[1] as int, s[2] as int, s[3] as int);
  }

  lemma FirstOfOne(s: Bytes) returns (c: nat)
    requires IsUtf8(s) && s != [] && s[0] <= 0x7f
    ensures Scalar(c) && Starts(s, c) && IsUtf8(s[|Encode(c)|..])
  {
    Ranges(s[0]);
    c := s[0] as int;
  }

  lemma Leads(s: Bytes)
    requires IsUtf8(s) && s != []
    ensures s[0] <= 0x7f || 0xc2 <= s[0] <= 0xdf || 0xe0 <= s[0] <= 0xef || 0xf0 <= s[0] <= 0xf4
  {
    hide Continuation;
  }

  /** The first scalar value of a checked text. */
  lemma First(s: Bytes) returns (c: nat)
    requires IsUtf8(s) && s != []
    ensures Scalar(c) && Starts(s, c) && IsUtf8(s[|Encode(c)|..])
  {
    hide IsUtf8, Encode;
    Leads(s);
    if s[0] <= 0x7f {
      c := FirstOfOne(s);
    } else if 0xc2 <= s[0] <= 0xdf {
      c := FirstOfTwo(s);
    } else if 0xe0 <= s[0] <= 0xef {
      c := FirstOfThree(s);
    } else {
      c := FirstOfFour(s);
    }
  }

  lemma StartChecks(s: Bytes, c: nat)
    requires Scalar(c) && Starts(s, c) && IsUtf8(s[|Encode(c)|..])
    ensures IsUtf8(s)
  {
    hide Continuation;
    Ranges(s[0]);
    if c >= 0x80 {
      FollowRanges(s[1]);
      if c < 0x800 {
        Two(s[0] as int, s[1] as int, c);
      } else {
        FollowRanges(s[2]);
        if c < 0x1_0000 {
          Three(s[0] as int, s[1] as int, s[2] as int, c);
        } else {
          FollowRanges(s[3]);
          Four(s[0] as int, s[1] as int, s[2] as int, s[3] as int, c);
        }
      }
    }
  }

  /** The byte checks accept exactly the encodings of scalar values. */
  lemma {:induction false} Utf8Exactly(s: Bytes)
    ensures IsUtf8(s) <==> exists codes :: Spells(s, codes)
  {
    hide IsUtf8, Encode, Starts;
    if IsUtf8(s) {
      var codes := Decode(s);
    }
    if exists codes :: Spells(s, codes) {
      var codes :| Spells(s, codes);
      SpelledIsChecked(s, codes);
    }
  }

  lemma {:induction false} Decode(s: Bytes) returns (codes: seq<nat>)
    requires IsUtf8(s)
    ensures Spells(s, codes)
  {
    hide IsUtf8, Encode, Scalar;
    if s == [] {
      codes := [];
    } else {
      var c := First(s);
      var rest := Decode(s[|Encode(c)|..]);
      codes := [c] + rest;
    }
  }

  lemma {:induction false} SpelledIsChecked(s: Bytes, codes: seq<nat>)
    requires Spells(s, codes)
    ensures IsUtf8(s)
    decreases |codes|
  {
    hide Encode, Scalar, Continuation;
    if codes != [] {
      SpelledIsChecked(s[|Encode(codes[0])|..], codes[1..]);
      StartChecks(s, codes[0]);
    }
  }
}
