/** Bytes and the big-endian integers that every BitBarrel message is built from. */
module Bytes {

  type byte = x: int | 0 <= x < 256

  const MAX_KEY_SIZE: nat := 65535
  const MAX_VALUE_SIZE: nat := 33554432
  const TWO_32: nat := 0x1_0000_0000

  function Read16(s: seq<byte>, i: nat): (n: nat)
    requires i + 2 <= |s|
    ensures n < 0x1_0000
  {
    (s[i] as int) * 0x100 + s[i + 1] as int
  }

  function Read32(s: seq<byte>, i: nat): (n: nat)
    requires i + 4 <= |s|
    ensures n < TWO_32
  {
    Read16(s, i) * 0x1_0000 + Read16(s, i + 2)
  }

  function Read64(s: seq<byte>, i: nat): (n: nat)
    requires i + 8 <= |s|
    ensures n < TWO_32 * TWO_32
  {
    Read32(s, i) * TWO_32 + Read32(s, i + 4)
  }

  function Be16(n: nat): (s: seq<byte>)
    requires n < 0x1_0000
    ensures |s| == 2
  {
    [n / 0x100, n % 0x100]
  }

  function Be32(n: nat): (s: seq<byte>)
    requires n < TWO_32
    ensures |s| == 4
  {
    Be16(n / 0x1_0000) + Be16(n % 0x1_0000)
  }

  function Be64(n: nat): (s: seq<byte>)
    requires n < TWO_32 * TWO_32
    ensures |s| == 8
  {
    Be32(n / TWO_32) + Be32(n % TWO_32)
  }

  /** Reading is position by position, so it only depends on the bytes read. */
  lemma Read16Of(s: seq<byte>, i: nat, n: nat)
    requires i + 2 <= |s| && n < 0x1_0000 && s[i..i + 2] == Be16(n)
    ensures Read16(s, i) == n
  {
    assert s[i..i + 2][0] == s[i] && s[i..i + 2][1] == s[i + 1];
  }

  lemma Read32Of(s: seq<byte>, i: nat, n: nat)
    requires i + 4 <= |s| && n < TWO_32 && s[i..i + 4] == Be32(n)
    ensures Read32(s, i) == n
  {
    assert s[i..i + 2] == s[i..i + 4][..2] == Be16(n / 0x1_0000);
    assert s[i + 2..i + 4] == s[i..i + 4][2..] == Be16(n % 0x1_0000);
    Read16Of(s, i, n / 0x1_0000);
    Read16Of(s, i + 2, n % 0x1_0000);
  }

  lemma Read64Of(s: seq<byte>, i: nat, n: nat)
    requires i + 8 <= |s| && n < TWO_32 * TWO_32 && s[i..i + 8] == Be64(n)
    ensures Read64(s, i) == n
  {
    assert s[i..i + 4] == s[i..i + 8][..4] == Be32(n / TWO_32);
    assert s[i + 4..i + 8] == s[i..i + 8][4..] == Be32(n % TWO_32);
    Read32Of(s, i, n / TWO_32);
    Read32Of(s, i + 4, n % TWO_32);
  }

  lemma SliceOfSlice(s: seq<byte>, i: nat, n: nat, from: nat, to: nat)
    requires from <= to <= n && i + n <= |s|
    ensures s[i + from..i + to] == s[i..i + n][from..to]
  {
    var a, b := s[i + from..i + to], s[i..i + n][from..to];
    assert |a| == |b|;
    forall k | 0 <= k < |a| ensures a[k] == b[k] {
      assert b[k] == s[i..i + n][from + k] == s[i + (from + k)];
    }
  }

  lemma Split16(high: nat, low: nat)
    requires low < 0x1_0000
    ensures (high * 0x1_0000 + low) / 0x1_0000 == high && (high * 0x1_0000 + low) % 0x1_0000 == low
  {
  }

  lemma Split32(high: nat, low: nat)
    requires low < TWO_32
    ensures (high * TWO_32 + low) / TWO_32 == high && (high * TWO_32 + low) % TWO_32 == low
  {
  }

  lemma Be16Of(s: seq<byte>, i: nat)
    requires i + 2 <= |s|
    ensures s[i..i + 2] == Be16(Read16(s, i))
  {
  }

  lemma Be32Of(s: seq<byte>, i: nat)
    requires i + 4 <= |s|
    ensures s[i..i + 4] == Be32(Read32(s, i))
  {
    Be16Of(s, i);
    Be16Of(s, i + 2);
    Split16(Read16(s, i), Read16(s, i + 2));
    assert s[i..i + 4] == s[i..i + 2] + s[i + 2..i + 4];
  }

  lemma Halves(s: seq<byte>, i: nat, high: nat, low: nat)
    requires i + 8 <= |s| && high < TWO_32 && low < TWO_32
    requires s[i..i + 4] == Be32(high) && s[i + 4..i + 8] == Be32(low)
    ensures s[i..i + 8] == Be64(high * TWO_32 + low)
  {
    Split32(high, low);
    assert s[i..i + 8] == s[i..i + 4] + s[i + 4..i + 8];
  }

  lemma Be64Of(s: seq<byte>, i: nat)
    requires i + 8 <= |s|
    ensures s[i..i + 8] == Be64(Read64(s, i))
  {
    Be32Of(s, i);
    Be32Of(s, i + 4);
    Halves(s, i, Read32(s, i), Read32(s, i + 4));
  }
}
