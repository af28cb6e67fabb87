/** Bytes as the C code sees them, and big-endian integers over them. */
module Bytes {

  /** An `unsigned char`. */
  type byte = b: int | 0 <= b < 256

  /** 256 to the power n. */
  function Pow256(n: nat): (p: nat)
    ensures p >= 1
  {
    if n == 0 then 1 else 256 * Pow256(n - 1)
  }

  /** The unsigned big-endian integer whose octets are s (most significant first). */
  function BeValue(s: seq<byte>): nat
  {
    if |s| == 0 then 0 else BeValue(s[..|s| - 1]) * 256 + s[|s| - 1]
  }

  /** An n-octet big-endian integer is below 256^n. */
  lemma {:induction false} BeValueBound(s: seq<byte>)
    ensures BeValue(s) < Pow256(|s|)
  {
    if |s| > 0 {
      BeValueBound(s[..|s| - 1]);
    }
  }

  /** Shifting a two-part value by one octet shifts both parts. */
  lemma ShiftDistributes(x: int, p: int, y: int)
    ensures (x * p + y) * 256 == x * (p * 256) + y * 256
  {
  }

  /** Big-endian value of a concatenation: the prefix is shifted by the suffix's width. */
  lemma {:induction false} BeValueAppend(a: seq<byte>, b: seq<byte>)
    ensures BeValue(a + b) == BeValue(a) * Pow256(|b|) + BeValue(b)
  {
    if |b| == 0 {
      assert a + b == a;
    } else {
      var ab := a + b;
      assert ab[..|ab| - 1] == a + b[..|b| - 1];
      BeValueAppend(a, b[..|b| - 1]);
      var x, p, y := BeValue(a), Pow256(|b| - 1), BeValue(b[..|b| - 1]);
      ShiftDistributes(x, p, y);
      calc {
        BeValue(ab);
        BeValue(a + b[..|b| - 1]) * 256 + b[|b| - 1];
        (x * p + y) * 256 + b[|b| - 1];
        x * (p * 256) + (y * 256 + b[|b| - 1]);
        BeValue(a) * Pow256(|b|) + BeValue(b);
      }
    }
  }

  /** A string that holds no NUL octet: the contents of a C string before its terminator. */
  predicate NoNul(s: seq<byte>)
  {
    forall i :: 0 <= i < |s| ==> s[i] != 0
  }
}
