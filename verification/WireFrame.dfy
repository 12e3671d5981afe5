/** WebSocket frames on the wire (RFC 6455, section 5.2), and masking (section 5.3). */
module WireFrame {
  import opened Bytes
  import opened Lists

  // ---- Masking ----

  function Pow2(bits: nat): nat { if bits == 0 then 1 else 2 * Pow2(bits - 1) }

  function XorBit(a: nat, b: nat): (r: nat)
    ensures r <= 1
  {
    if a == b then 0 else 1
  }

  /** Exclusive or of the lowest `bits` bits. */
  function XorBits(a: nat, b: nat, bits: nat): (r: nat)
    ensures r < Pow2(bits)
  {
    if bits == 0 then 0 else XorBit(a % 2, b % 2) + 2 * XorBits(a / 2, b / 2, bits - 1)
  }

  lemma Halve(bit: nat, rest: nat)
    requires bit <= 1
    ensures (bit + 2 * rest) % 2 == bit && (bit + 2 * rest) / 2 == rest
  {
  }

  lemma {:induction false} XorTwice(a: nat, b: nat, bits: nat)
    requires a < Pow2(bits)
    ensures XorBits(XorBits(a, b, bits), b, bits) == a
  {
    if bits > 0 {
      Halve(XorBit(a % 2, b % 2), XorBits(a / 2, b / 2, bits - 1));
      XorTwice(a / 2, b / 2, bits - 1);
    }
  }

  lemma ByteBits()
    ensures Pow2(8) == 256
  {
    assert Pow2(4) == 16;
    assert Pow2(6) == 64;
  }

  function Xor(a: byte, b: byte): byte {
    ByteBits();
    XorBits(a, b, 8)
  }

  // ---- What masking means, bit by bit ----

  /** Bit i of a number, the lowest being bit 0. */
  function Bit(n: nat, i: nat): bool {
    if i == 0 then n % 2 == 1 else Bit(n / 2, i - 1)
  }

  lemma {:induction false} BitOfXor(a: nat, b: nat, bits: nat, i: nat)
    requires i < bits
    ensures Bit(XorBits(a, b, bits), i) <==> Bit(a, i) != Bit(b, i)
  {
    Halve(XorBit(a % 2, b % 2), XorBits(a / 2, b / 2, bits - 1));
    if i > 0 { BitOfXor(a / 2, b / 2, bits - 1, i - 1); }
  }

  lemma {:induction false} SameBits(a: nat, b: nat, bits: nat)
    requires a < Pow2(bits) && b < Pow2(bits) && forall i :: 0 <= i < bits ==> Bit(a, i) == Bit(b, i)
    ensures a == b
  {
    if bits > 0 {
      assert Bit(a, 0) == Bit(b, 0);
      forall i | 0 <= i < bits - 1 ensures Bit(a / 2, i) == Bit(b / 2, i) {
        assert Bit(a, i + 1) == Bit(b, i + 1);
      }
      SameBits(a / 2, b / 2, bits - 1);
    }
  }

  /** Exactly those of the lowest eight bits are set in `r` in which `a` and `b` differ. */
  predicate IsXor(a: nat, b: nat, r: nat) {
    forall i :: 0 <= i < 8 ==> (Bit(r, i) <==> Bit(a, i) != Bit(b, i))
  }

  lemma XorExactly(a: byte, b: byte, r: byte)
    ensures r == Xor(a, b) <==> IsXor(a, b, r)
  {
    ByteBits();
    forall i | 0 <= i < 8 ensures Bit(Xor(a, b), i) <==> Bit(a, i) != Bit(b, i) {
      BitOfXor(a, b, 8, i);
    }
    if IsXor(a, b, r) {
      forall i | 0 <= i < 8 ensures Bit(r, i) == Bit(Xor(a, b), i) {
        assert Bit(r, i) <==> Bit(a, i) != Bit(b, i);
      }
      SameBits(r, Xor(a, b), 8);
    }
  }

  type MaskKey = k: seq<byte> | |k| == 4 witness [0, 0, 0, 0]

  /** Byte i of the payload is combined with byte i modulo 4 of the key. */
  function Mask(data: seq<byte>, key: MaskKey): (r: seq<byte>)
    ensures |r| == |data|
  {
    seq(|data|, i requires 0 <= i < |data| => Xor(data[i], key[i % 4]))
  }

  /** Section 5.3 of RFC 6455: byte j is flipped in the bits that are set in byte j modulo 4 of the key. */
  lemma MaskExactly(data: seq<byte>, key: MaskKey, r: seq<byte>)
    ensures r == Mask(data, key) <==>
            |r| == |data| && forall j :: 0 <= j < |r| ==> IsXor(data[j], key[j % 4], r[j])
  {
    forall j | 0 <= j < |r| && j < |data| ensures r[j] == Mask(data, key)[j] <==> IsXor(data[j], key[j % 4], r[j]) {
      XorExactly(data[j], key[j % 4], r[j]);
    }
  }

  lemma {:induction false} NoBits(i: nat)
    ensures !Bit(0, i)
  {
    if i > 0 { NoBits(i - 1); }
  }

  /** The key of zeros masks nothing. */
  lemma ZeroKeyMasksNothing(data: seq<byte>)
    ensures Mask(data, [0, 0, 0, 0]) == data
  {
    forall i: nat ensures !Bit(0, i) { NoBits(i); }
    assert forall a: nat :: IsXor(a, 0, a);
    MaskExactly(data, [0, 0, 0, 0], data);
  }

  lemma MaskTwice(data: seq<byte>, key: MaskKey)
    ensures Mask(Mask(data, key), key) == data
  {
    forall i | 0 <= i < |data| ensures Mask(Mask(data, key), key)[i] == data[i] {
      ByteBits();
      XorTwice(data[i], key[i % 4], 8);
    }
  }

  // ---- Frames ----

  /** How the payload length is written: in the second byte, in two more bytes, or in eight more. */
  datatype LengthForm = Short | Medium | Long

  predicate Fits(form: LengthForm, n: nat) {
    match form
    case Short => n < 126
    case Medium => n < 0x1_0000
    case Long => n < TWO_32 * TWO_32
  }

  function LengthBytes(form: LengthForm, maskBit: byte, n: nat): seq<byte>
    requires Fits(form, n) && (maskBit == 0 || maskBit == 0x80)
  {
    match form
    case Short => [maskBit + n]
    case Medium => [maskBit + 126] + Be16(n)
    case Long => [maskBit + 127] + Be64(n)
  }

  /** Any frame with this first byte, length form, key and payload, whoever writes it. */
  function Frame(first: byte, form: LengthForm, key: Option<MaskKey>, payload: seq<byte>): seq<byte>
    requires Fits(form, |payload|)
  {
    [first] + LengthBytes(form, if key.Some? then 0x80 else 0, |payload|)
    + (if key.Some? then key.value + Mask(payload, key.value) else payload)
  }

  /** The form section 5.2 asks for: the fewest bytes that hold the length. */
  function MinimalForm(n: nat): LengthForm {
    if n < 126 then Short else if n < 0x1_0000 then Medium else Long
  }

  lemma MinimalFormIsShortest(first: byte, form: LengthForm, key: Option<MaskKey>, payload: seq<byte>)
    requires Fits(form, |payload|)
    ensures Fits(MinimalForm(|payload|), |payload|)
    ensures |Frame(first, MinimalForm(|payload|), key, payload)| <= |Frame(first, form, key, payload)|
  {
  }
}
