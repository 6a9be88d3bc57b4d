/** Pure helpers of the hash ring: reading a hex digest as a ring position,
    listing a set of positions in ascending order, and the successor rule. */
module RingMath {

  /** Positions on the ring are unsigned 32-bit numbers. */
  const RingSize: nat := 0x1_0000_0000

  predicate IsHexDigit(c: char) {
    '0' <= c <= '9' || 'a' <= c <= 'f' || 'A' <= c <= 'F'
  }

  predicate AllHex(s: string) {
    forall i :: 0 <= i < |s| ==> IsHexDigit(s[i])
  }

  /** A digest in hex encoding, as the digest routine hands it back: only
      hex digits, and at least the eight that a ring position is read from. */
  type HexDigest = s: string | 8 <= |s| && AllHex(s) witness "00000000"

  function DigitValue(c: char): (d: nat)
    requires IsHexDigit(c)
    ensures d < 16
  {
    if '0' <= c <= '9' then c as nat - '0' as nat
    else if 'a' <= c <= 'f' then c as nat - 'a' as nat + 10
    else c as nat - 'A' as nat + 10
  }

  function Pow16(n: nat): (r: nat)
    ensures r > 0
  {
    if n == 0 then 1 else 16 * Pow16(n - 1)
  }

  /** The value of a run of hex digits, most significant digit first
      (base-16 parseInt). It fits in as many hex digits as it has. */
  function HexValue(s: string): (r: nat)
    requires AllHex(s)
    ensures r < Pow16(|s|)
  {
    if s == [] then 0
    else
      var init := s[..|s| - 1];
      assert AllHex(init) by {
        forall i | 0 <= i < |init| ensures IsHexDigit(init[i]) {
          assert init[i] == s[i];
        }
      }
      var high := HexValue(init);
      assert high * 16 <= (Pow16(|init|) - 1) * 16;
      high * 16 + DigitValue(s[|s| - 1])
  }

  /** hashToLong: the first eight hex digits of a digest, read as a
      big-endian unsigned number; always a position on the 32-bit ring. */
  function HashToLong(h: HexDigest): (r: nat)
    ensures r < RingSize
  {
    assert Pow16(8) == RingSize;
    HexValue(h[..8])
  }

  function HexDigitOf(d: nat): (c: char)
    requires d < 16
    ensures IsHexDigit(c) && DigitValue(c) == d
  {
    if d < 10 then ('0' as nat + d) as char else ('a' as nat + d - 10) as char
  }

  /** The `width` lowest hex digits of n, most significant first, lower case:
      the inverse of HexValue below. */
  function HexEncode(n: nat, width: nat): (s: string)
    ensures |s| == width && AllHex(s)
  {
    if width == 0 then ""
    else
      var init := HexEncode(n / 16, width - 1);
      var s := init + [HexDigitOf(n % 16)];
      assert forall i :: 0 <= i < |init| ==> s[i] == init[i];
      s
  }

  /** Reading back an encoding gives the number that was encoded. */
  lemma {:induction false} HexValueOfEncode(n: nat, width: nat)
    requires n < Pow16(width)
    ensures HexValue(HexEncode(n, width)) == n
  {
    if width > 0 {
      assert n / 16 < Pow16(width - 1);
      HexValueOfEncode(n / 16, width - 1);
      var s := HexEncode(n, width);
      assert s[..|s| - 1] == HexEncode(n / 16, width - 1);
    }
  }

  /** Every 32-bit position is the position of some digest, so the ring's
      key space is exactly [0, 2^32). */
  lemma {:induction false} HashToLongOnto(p: nat)
    requires p < RingSize
    ensures |HexEncode(p, 8)| == 8 && AllHex(HexEncode(p, 8))
    ensures HashToLong(HexEncode(p, 8)) == p
  {
    assert Pow16(8) == RingSize;
    HexValueOfEncode(p, 8);
    var h := HexEncode(p, 8);
    assert h[..8] == h;
  }

  /** Strictly ascending: what sorting a list of distinct positions gives. */
  ghost predicate StrictlyAscending(s: seq<nat>) {
    forall i, j :: 0 <= i < j < |s| ==> s[i] < s[j]
  }

  /** A least element of a non-empty set of positions, found by taking
      out one element at a time. */
  ghost function LeastOf(s: set<nat>): (m: nat)
    requires s != {}
    ensures m in s && forall x :: x in s ==> m <= x
  {
    var y :| y in s;
    var rest := s - {y};
    assert forall x :: x in s ==> x == y || x in rest;
    if rest == {} then y
    else
      var m := LeastOf(rest);
      if y < m then y else m
  }

  /** The least element of a non-empty set of positions. */
  function Min(s: set<nat>): (m: nat)
    requires s != {}
    ensures m in s && forall x :: x in s ==> m <= x
  {
    assert LeastOf(s) in s;
    var m :| m in s && forall x :: x in s ==> m <= x;
    m
  }

  /** The elements of a set of positions in ascending order, as
      `Array.from(keys).sort((a, b) => a - b)` lists them. */
  function SortedKeys(s: set<nat>): (r: seq<nat>)
    ensures StrictlyAscending(r)
    ensures forall x :: x in r <==> x in s
    ensures |r| == |s|
    decreases s
  {
    if s == {} then []
    else
      var m := Min(s);
      var rest := SortedKeys(s - {m});
      assert forall x :: x in rest ==> m < x;
      [m] + rest
  }

  /** Past a common least element, whatever follows it in one ascending
      listing follows it in the other. */
  lemma TailsAgree(a: seq<nat>, b: seq<nat>)
    requires StrictlyAscending(a) && StrictlyAscending(b)
    requires forall x :: x in a <==> x in b
    requires a != [] && b != [] && a[0] == b[0]
    ensures forall x :: x in a[1..] ==> x in b[1..]
  {
    forall x | x in a[1..] ensures x in b[1..] {
      var k :| 1 <= k < |a| && a[k] == x;
      assert a[0] < x;
      assert x in b;
      var j :| 0 <= j < |b| && b[j] == x;
      assert b[1..][j - 1] == x;
    }
  }

  /** There is only one ascending listing of a set: any two agree, so
      SortedKeys is the result of the sort whatever order it started from. */
  lemma {:induction false} AscendingListingIsUnique(a: seq<nat>, b: seq<nat>)
    requires StrictlyAscending(a) && StrictlyAscending(b)
    requires forall x :: x in a <==> x in b
    ensures a == b
  {
    assert a != [] ==> a[0] in a;
    assert b != [] ==> b[0] in b;
    if a != [] && b != [] {
      assert a[0] == b[0] by {
        assert forall j :: 0 <= j < |b| ==> b[0] <= b[j];
        assert forall k :: 0 <= k < |a| ==> a[0] <= a[k];
        assert a[0] in b && b[0] in a;
      }
      TailsAgree(a, b);
      TailsAgree(b, a);
      AscendingListingIsUnique(a[1..], b[1..]);
      assert a == [a[0]] + a[1..];
      assert b == [b[0]] + b[1..];
    }
  }

  /** The successor rule: the position that owns hash position h is the
      least ring position at or after h, or, when h lies beyond every ring
      position, the least ring position overall (the ring wraps around). */
  ghost function Successor(keys: set<nat>, h: nat): (p: nat)
    requires keys != {}
    ensures p in keys
    ensures (exists q :: q in keys && h <= q) ==>
              h <= p && forall q :: q in keys && h <= q ==> p <= q
    ensures (forall q :: q in keys ==> q < h) ==> p == Min(keys)
  {
    var atOrAfter := set q | q in keys && h <= q;
    assert forall q :: q in keys && h <= q ==> q in atOrAfter;
    if atOrAfter != {} then Min(atOrAfter) else Min(keys)
  }
}
