/**
 * Perceptual hashes as the search script sees them: eight bytes, most
 * significant first, compared by Hamming distance.  Also the split of the
 * 16-hex-digit string printed by the hashing library into those bytes.
 */
module HashCodec {

  datatype Option<T> = None | Some(value: T)

  /** One column H0..H7 of the hash table: an integer in 0..255. */
  type Byte = x: int | 0 <= x < 256

  /** A complete 64-bit hash, one byte per trie level. */
  type Hash = h: seq<Byte> | |h| == 8 witness [0, 0, 0, 0, 0, 0, 0, 0]

  /** Python's `a ^ b` on non-negative integers, bit by bit from the lowest. */
  function Xor(a: nat, b: nat): (r: nat)
    ensures r == 0 <==> a == b
    ensures r <= a + b
    decreases a + b
  {
    if a == 0 && b == 0 then 0
    else (if a % 2 != b % 2 then 1 else 0) + 2 * Xor(a / 2, b / 2)
  }

  /** Python's `a & b` on non-negative integers, bit by bit from the lowest. */
  function And(a: nat, b: nat): (r: nat)
    ensures r <= a && r <= b
    decreases a
  {
    if a == 0 || b == 0 then 0
    else (if a % 2 == 1 && b % 2 == 1 then 1 else 0) + 2 * And(a / 2, b / 2)
  }

  /** Number of set bits. */
  function PopCount(x: nat): nat
  {
    if x == 0 then 0 else x % 2 + PopCount(x / 2)
  }

  /** Bit i of x, counting from the lowest. */
  function Bit(x: nat, i: nat): nat
  {
    if i == 0 then x % 2 else Bit(x / 2, i - 1)
  }

  /** Bit i of `a ^ b` is set exactly when bits i of a and b differ. */
  lemma {:induction false} XorBits(a: nat, b: nat, i: nat)
    ensures Bit(Xor(a, b), i) == if Bit(a, i) != Bit(b, i) then 1 else 0
    decreases a + b
  {
    if i > 0 {
      if a == 0 && b == 0 {
        BitZero(i);
      } else {
        XorBits(a / 2, b / 2, i - 1);
      }
    }
  }

  /** Bit i of `a & b` is set exactly when bits i of both a and b are set. */
  lemma {:induction false} AndBits(a: nat, b: nat, i: nat)
    ensures Bit(And(a, b), i) == if Bit(a, i) == 1 && Bit(b, i) == 1 then 1 else 0
    decreases a
  {
    if i > 0 {
      if a == 0 {
        BitZero(i);
        BitZero(i - 1);
      } else if b == 0 {
        BitZero(i);
        BitZero(i - 1);
      } else {
        AndBits(a / 2, b / 2, i - 1);
      }
    }
  }

  lemma {:induction false} BitZero(i: nat)
    ensures Bit(0, i) == 0
  {
    if i > 0 {
      BitZero(i - 1);
    }
  }

  /** A value below 2^k has at most k set bits. */
  lemma {:induction false} PopCountBound(x: nat, k: nat)
    requires x < Pow2(k)
    ensures PopCount(x) <= k
  {
    if x > 0 {
      PopCountBound(x / 2, k - 1);
    }
  }

  /** `a ^ b` of two values below 2^k is below 2^k. */
  lemma {:induction false} XorBound(a: nat, b: nat, k: nat)
    requires a < Pow2(k) && b < Pow2(k)
    ensures Xor(a, b) < Pow2(k)
    decreases a + b
  {
    if a != 0 || b != 0 {
      XorBound(a / 2, b / 2, k - 1);
    }
  }

  function Pow2(k: nat): (p: nat)
    ensures p >= 1
  {
    if k == 0 then 1 else 2 * Pow2(k - 1)
  }

  /** Two bytes differ in at most eight bits. */
  lemma ByteDifferenceBound(x: Byte, y: Byte)
    ensures PopCount(Xor(x, y)) <= 8
  {
    assert Pow2(8) == 256;
    XorBound(x, y, 8);
    PopCountBound(Xor(x, y), 8);
  }

  lemma {:induction false} XorSymmetric(a: nat, b: nat)
    ensures Xor(a, b) == Xor(b, a)
    decreases a + b
  {
    if a != 0 || b != 0 {
      XorSymmetric(a / 2, b / 2);
    }
  }

  lemma {:induction false} PopCountZero(x: nat)
    ensures PopCount(x) == 0 <==> x == 0
  {
    if x != 0 && x % 2 == 0 {
      PopCountZero(x / 2);
    }
  }

  lemma {:induction false} AndSelf(x: nat)
    ensures And(x, x) == x
  {
    if x != 0 {
      AndSelf(x / 2);
    }
  }

  lemma PopCountDouble(x: nat)
    ensures PopCount(2 * x) == PopCount(x)
  {
  }

  /** `x &= x - 1` clears exactly one set bit of a non-zero value. */
  lemma {:induction false} ClearLowestBit(x: nat)
    requires x > 0
    ensures PopCount(And(x, x - 1)) == PopCount(x) - 1
  {
    if x == 1 {
    } else if x % 2 == 1 {
      assert (x - 1) / 2 == x / 2;
      AndSelf(x / 2);
      PopCountDouble(x / 2);
    } else {
      assert (x - 1) / 2 == x / 2 - 1;
      ClearLowestBit(x / 2);
      PopCountDouble(And(x / 2, x / 2 - 1));
    }
  }

  /**
   * The bit-counting loop of the search: adds to candDist the number of bits
   * in which hashByte and refByte differ, clearing one set bit per iteration.
   */
  method ByteDistance(hashByte: Byte, refByte: Byte, candDist: nat) returns (newCandDist: nat)
    ensures newCandDist == candDist + PopCount(Xor(hashByte, refByte))
  {
    var differentBits := Xor(hashByte, refByte);
    newCandDist := candDist;
    while differentBits > 0
      invariant newCandDist + PopCount(differentBits) == candDist + PopCount(Xor(hashByte, refByte))
      decreases PopCount(differentBits)
    {
      ClearLowestBit(differentBits);
      differentBits := And(differentBits, differentBits - 1);
      newCandDist := newCandDist + 1;
    }
  }

  /**
   * Hamming distance of two byte strings of equal length: the sum over the
   * positions of the bits in which they differ.  Defined from the last byte so
   * that extending a trie prefix by one byte adds one term.
   */
  function Distance(a: seq<Byte>, b: seq<Byte>): (d: nat)
    requires |a| == |b|
    ensures d <= 8 * |a|
  {
    if |a| == 0 then 0
    else
      ByteDifferenceBound(a[|a| - 1], b[|b| - 1]);
      Distance(a[..|a| - 1], b[..|b| - 1]) + PopCount(Xor(a[|a| - 1], b[|b| - 1]))
  }

  lemma {:induction false} DistanceSymmetric(a: seq<Byte>, b: seq<Byte>)
    requires |a| == |b|
    ensures Distance(a, b) == Distance(b, a)
  {
    if |a| > 0 {
      DistanceSymmetric(a[..|a| - 1], b[..|b| - 1]);
      XorSymmetric(a[|a| - 1], b[|b| - 1]);
    }
  }

  /** Distance zero means equality, in both directions. */
  lemma {:induction false} DistanceZero(a: seq<Byte>, b: seq<Byte>)
    requires |a| == |b|
    ensures Distance(a, b) == 0 <==> a == b
  {
    if |a| > 0 {
      var n := |a| - 1;
      DistanceZero(a[..n], b[..n]);
      PopCountZero(Xor(a[n], b[n]));
      assert a == a[..n] + [a[n]] && b == b[..n] + [b[n]];
      if a == b {
        assert a[..n] == b[..n];
      }
    }
  }

  /**
   * The distance of a prefix never exceeds the distance of the whole: the
   * reason a branch of the search can be cut as soon as its prefix is over
   * budget.
   */
  lemma {:induction false} DistancePrefix(a: seq<Byte>, b: seq<Byte>, k: nat)
    requires |a| == |b| && k <= |a|
    ensures Distance(a[..k], b[..k]) <= Distance(a, b)
    decreases |a| - k
  {
    if k < |a| {
      var n := |a| - 1;
      DistancePrefix(a[..n], b[..n], k);
      assert a[..n][..k] == a[..k] && b[..n][..k] == b[..k];
    } else {
      assert a[..k] == a && b[..k] == b;
    }
  }

  /** Extending both strings by one byte adds that byte pair's bit count. */
  lemma DistanceExtend(a: seq<Byte>, b: seq<Byte>, x: Byte, y: Byte)
    requires |a| == |b|
    ensures Distance(a + [x], b + [y]) == Distance(a, b) + PopCount(Xor(x, y))
  {
    assert (a + [x])[..|a|] == a && (b + [y])[..|b|] == b;
  }

  // ----- hexadecimal text of a hash -----

  predicate IsHexDigit(c: char)
  {
    '0' <= c <= '9' || 'a' <= c <= 'f' || 'A' <= c <= 'F'
  }

  function DigitValue(c: char): (v: nat)
    requires IsHexDigit(c)
    ensures v < 16
  {
    if '0' <= c <= '9' then c as nat - '0' as nat
    else if 'a' <= c <= 'f' then c as nat - 'a' as nat + 10
    else c as nat - 'A' as nat + 10
  }

  /** The lower-case digit of a value below 16. */
  function DigitChar(v: nat): (c: char)
    requires v < 16
    ensures IsHexDigit(c) && DigitValue(c) == v
  {
    if v < 10 then ('0' as nat + v) as char else ('a' as nat + v - 10) as char
  }

  /** int(chunk, 16) for a chunk of one or two characters. */
  function ParseChunk(chunk: string): (r: Option<Byte>)
    requires 1 <= |chunk| <= 2
    ensures r.Some? <==> forall j :: 0 <= j < |chunk| ==> IsHexDigit(chunk[j])
    ensures r.Some? && |chunk| == 1 ==> r.value == DigitValue(chunk[0])
    ensures r.Some? && |chunk| == 2 ==> r.value / 16 == DigitValue(chunk[0]) && r.value % 16 == DigitValue(chunk[1])
  {
    if !IsHexDigit(chunk[0]) then None
    else if |chunk| == 1 then Some(DigitValue(chunk[0]))
    else if !IsHexDigit(chunk[1]) then None
    else Some(16 * DigitValue(chunk[0]) + DigitValue(chunk[1]))
  }

  /** Value of the i-th two-character chunk of an all-hex string (the last chunk may be one character). */
  function ChunkValue(s: string, i: nat): nat
    requires 2 * i < |s|
    requires forall j :: 0 <= j < |s| ==> IsHexDigit(s[j])
  {
    if 2 * i + 1 < |s| then 16 * DigitValue(s[2 * i]) + DigitValue(s[2 * i + 1])
    else DigitValue(s[2 * i])
  }

  /**
   * The comprehension that turns the hash string into a byte tuple: the
   * string is cut into chunks of two characters from the left and each chunk
   * is read as a base-16 number.  A character that is not a hex digit makes
   * the conversion fail.
   */
  function ParseHex(s: string): (r: Option<seq<Byte>>)
    ensures r.Some? <==> forall j :: 0 <= j < |s| ==> IsHexDigit(s[j])
    ensures r.Some? ==> |r.value| == (|s| + 1) / 2
    decreases |s|
  {
    if |s| == 0 then Some([])
    else
      var n := if |s| == 1 then 1 else 2;
      match ParseChunk(s[..n])
      case None => None
      case Some(b) =>
        match ParseHex(s[n..])
        case None => None
        case Some(rest) => Some([b] + rest)
  }

  /** Each byte of the result is the base-16 value of its chunk, the first chunk giving the first byte. */
  lemma {:induction false} ParseHexChunks(s: string, i: nat)
    requires ParseHex(s).Some? && i < |ParseHex(s).value|
    ensures ParseHex(s).value[i] == ChunkValue(s, i)
    decreases |s|
  {
    var n := if |s| == 1 then 1 else 2;
    if i > 0 {
      ParseHexChunks(s[n..], i - 1);
      assert s[n..][2 * (i - 1)] == s[2 * i];
      assert 2 * (i - 1) + 1 < |s[n..]| ==> s[n..][2 * (i - 1) + 1] == s[2 * i + 1];
    }
  }

  /** The 16 hex digits of a 64-bit hash, most significant first, as the hashing library prints it. */
  predicate IsHashString(s: string)
  {
    |s| == 16 && forall j :: 0 <= j < |s| ==> IsHexDigit(s[j])
  }

  /** A hash string always yields exactly 8 bytes, the i-th from characters 2i and 2i+1. */
  lemma HashStringParses(s: string)
    requires IsHashString(s)
    ensures ParseHex(s).Some? && |ParseHex(s).value| == 8
    ensures forall i :: 0 <= i < 8 ==>
      ParseHex(s).value[i] == 16 * DigitValue(s[2 * i]) + DigitValue(s[2 * i + 1])
  {
    forall i | 0 <= i < 8
      ensures ParseHex(s).value[i] == 16 * DigitValue(s[2 * i]) + DigitValue(s[2 * i + 1])
    {
      ParseHexChunks(s, i);
    }
  }

  /** Lower-case hexadecimal text of a byte string, two digits per byte, most significant first. */
  function ToHex(h: seq<Byte>): (s: string)
    ensures |s| == 2 * |h|
    ensures forall j :: 0 <= j < |s| ==> IsHexDigit(s[j])
  {
    if |h| == 0 then []
    else [DigitChar(h[0] / 16), DigitChar(h[0] % 16)] + ToHex(h[1..])
  }

  /** Reading back the printed hash gives the hash. */
  lemma {:induction false} ParseToHex(h: seq<Byte>)
    ensures ParseHex(ToHex(h)) == Some(h)
  {
    if |h| > 0 {
      var s := ToHex(h);
      ParseToHex(h[1..]);
      assert s[2..] == ToHex(h[1..]);
      assert [h[0]] + h[1..] == h;
    }
  }

  /**
   * The reference hash of a single search: the printed hash split into eight
   * bytes, byte i read from characters 2i (high digit) and 2i+1 (low digit).
   */
  function HashOfString(s: string): (h: Hash)
    requires IsHashString(s)
    ensures forall i :: 0 <= i < 8 ==> h[i] == 16 * DigitValue(s[2 * i]) + DigitValue(s[2 * i + 1])
  {
    HashStringParses(s);
    ParseHex(s).value
  }

  /** Printing a hash and reading it back gives the same eight bytes. */
  lemma HashOfStringToHex(h: Hash)
    ensures IsHashString(ToHex(h)) && HashOfString(ToHex(h)) == h
  {
    ParseToHex(h);
  }
}
