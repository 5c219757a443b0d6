/** Whole numbers as bit strings, most significant bit first. */
module Bits {
  type Byte = x: nat | x < 256

  function Pow2(n: nat): (p: nat)
    ensures p >= 1
  {
    if n == 0 then 1 else 2 * Pow2(n - 1)
  }

  /** The unsigned shift x >>> i. */
  function ShiftRight(x: nat, i: nat): nat {
    if i == 0 then x else ShiftRight(x / 2, i - 1)
  }

  function Bit(x: nat, i: nat): bool {
    ShiftRight(x, i) % 2 == 1
  }

  function BitsOf(x: nat, n: nat): (s: seq<bool>)
    ensures |s| == n
  {
    if n == 0 then [] else BitsOf(x / 2, n - 1) + [x % 2 == 1]
  }

  function Value(s: seq<bool>): nat {
    if s == [] then 0 else 2 * Value(s[..|s| - 1]) + (if s[|s| - 1] then 1 else 0)
  }

  lemma {:induction false} BitsOfAt(x: nat, n: nat, k: nat)
    requires k < n
    ensures BitsOf(x, n)[k] == Bit(x, n - 1 - k)
    decreases n
  {
    if k < n - 1 {
      BitsOfAt(x / 2, n - 1, k);
    }
  }

  lemma {:induction false} ValueOfBits(x: nat, n: nat)
    requires x < Pow2(n)
    ensures Value(BitsOf(x, n)) == x
    decreases n
  {
    if n > 0 {
      ValueOfBits(x / 2, n - 1);
      assert BitsOf(x, n)[..n - 1] == BitsOf(x / 2, n - 1);
    }
  }

  lemma {:induction false} BitsOfValue(s: seq<bool>)
    ensures Value(s) < Pow2(|s|) && BitsOf(Value(s), |s|) == s
  {
    if s != [] {
      BitsOfValue(s[..|s| - 1]);
    }
  }

  /** The bits of a list of bytes, one after the other. */
  function Stream(words: seq<Byte>): (s: seq<bool>)
    ensures |s| == 8 * |words|
  {
    if words == [] then [] else Stream(words[..|words| - 1]) + BitsOf(words[|words| - 1], 8)
  }

  lemma {:induction false} StreamAt(words: seq<Byte>, k: nat)
    requires k < |words|
    ensures Stream(words)[8 * k..8 * k + 8] == BitsOf(words[k], 8)
    decreases |words|
  {
    var m := |words| - 1;
    if k < m {
      StreamAt(words[..m], k);
      assert Stream(words)[8 * k..8 * k + 8] == Stream(words[..m])[8 * k..8 * k + 8];
    }
  }

  lemma {:induction false} StreamPrefix(words: seq<Byte>, k: nat)
    requires k <= |words|
    ensures Stream(words)[..8 * k] == Stream(words[..k])
    decreases |words|
  {
    var m := |words| - 1;
    if k <= m {
      StreamPrefix(words[..m], k);
      assert words[..m][..k] == words[..k];
      assert Stream(words)[..8 * k] == Stream(words[..m])[..8 * k];
    } else {
      assert words[..k] == words;
    }
  }

  /** A single bit of the stream, as the module loop addresses it. */
  lemma StreamBit(words: seq<Byte>, i: nat)
    requires i < 8 * |words|
    ensures Stream(words)[i] == Bit(words[i / 8], 7 - i % 8)
  {
    var k := i / 8;
    StreamAt(words, k);
    BitsOfAt(words[k], 8, i % 8);
    assert Stream(words)[i] == Stream(words)[8 * k..8 * k + 8][i % 8];
  }
}
