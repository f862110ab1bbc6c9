/**
 * The hand-rolled baseline JPEG writer behind the test images: bit strings
 * and their packing into bytes with 0xFF byte stuffing (section F.1.2.3 of
 * ITU-T T.81), the DC difference category and amplitude bits (section
 * F.1.2.1), the marker segments, and the assembled 8x8 grey image.
 */
module JpegWriter {

  import opened Wrappers

  newtype byte = x: int | 0 <= x < 256

  /** The errors Python raises on the paths modelled here. */
  datatype Error = ValueError | OverflowError | KeyError

  // ---------------------------------------------------------------------
  // Bit strings
  // ---------------------------------------------------------------------

  function Pow2(n: nat): (p: nat)
    ensures p >= 1
  {
    if n == 0 then 1 else 2 * Pow2(n - 1)
  }

  lemma {:induction false} Pow2Monotone(a: nat, b: nat)
    requires a <= b
    ensures Pow2(a) <= Pow2(b)
  {
    if a < b {
      Pow2Monotone(a, b - 1);
    }
  }

  /** The value of a bit string read most significant bit first; any
      character other than '1' is a 0 bit. */
  function BinValue(s: string): nat {
    if s == [] then 0 else 2 * BinValue(s[..|s| - 1]) + (if s[|s| - 1] == '1' then 1 else 0)
  }

  lemma {:induction false} BinValueBound(s: string)
    ensures BinValue(s) < Pow2(|s|)
  {
    if s != [] {
      BinValueBound(s[..|s| - 1]);
    }
  }

  /** `format(v, "0{n}b")` for a value below 2^n: exactly n binary digits. */
  function ToBin(v: nat, n: nat): (r: string)
    ensures |r| == n && forall i :: 0 <= i < n ==> r[i] == '0' || r[i] == '1'
  {
    if n == 0 then [] else ToBin(v / 2, n - 1) + [if v % 2 == 1 then '1' else '0']
  }

  lemma {:induction false} ToBinValue(v: nat, n: nat)
    requires v < Pow2(n)
    ensures BinValue(ToBin(v, n)) == v
  {
    if n > 0 {
      ToBinValue(v / 2, n - 1);
      assert ToBin(v, n)[..n - 1] == ToBin(v / 2, n - 1);
    }
  }

  /** Every character read as a bit: '1' stays, anything else becomes '0'. */
  function Normalize(s: string): (r: string)
    ensures |r| == |s| && forall i :: 0 <= i < |s| ==> r[i] == (if s[i] == '1' then '1' else '0')
  {
    seq(|s|, i requires 0 <= i < |s| => if s[i] == '1' then '1' else '0')
  }

  function Zeros(k: nat): (r: string)
    ensures |r| == k && forall i :: 0 <= i < k ==> r[i] == '0'
  {
    seq(k, i => '0')
  }

  lemma {:induction false} ToBinOfValue(t: string)
    ensures ToBin(BinValue(t), |t|) == Normalize(t)
  {
    if t != [] {
      var init := t[..|t| - 1];
      ToBinOfValue(init);
      assert Normalize(t) == Normalize(init) + [Normalize(t)[|t| - 1]];
    }
  }

  /** Python's `v << k`: k doublings. */
  function Shl(v: nat, k: nat): nat {
    if k == 0 then v else 2 * Shl(v, k - 1)
  }

  lemma {:induction false} ShlBound(v: nat, n: nat, k: nat)
    requires v < Pow2(n)
    ensures Shl(v, k) < Pow2(n + k)
  {
    if k > 0 {
      ShlBound(v, n, k - 1);
    }
  }

  /** Appending k zero bits shifts the value left by k. */
  lemma {:induction false} BinValuePadded(t: string, k: nat)
    ensures BinValue(t + Zeros(k)) == Shl(BinValue(t), k)
  {
    if k == 0 {
      assert t + Zeros(0) == t;
    } else {
      BinValuePadded(t, k - 1);
      var u := t + Zeros(k);
      assert u[..|u| - 1] == t + Zeros(k - 1);
    }
  }

  // ---------------------------------------------------------------------
  // _pack_bits
  // ---------------------------------------------------------------------

  /** A group of at most 8 bits, padded on the right with 0 bits. */
  function GroupByte(s: string): byte
    requires |s| <= 8
  {
    BinValueBound(s);
    ShlBound(BinValue(s), |s|, 8 - |s|);
    assert Pow2(8) == 256;
    Shl(BinValue(s), 8 - |s|) as byte
  }

  /** The bit string cut into bytes, the last one padded with 0 bits. */
  function Groups(s: string): seq<byte>
    decreases |s|
  {
    if s == [] then []
    else if |s| <= 8 then [GroupByte(s)]
    else [GroupByte(s[..8])] + Groups(s[8..])
  }

  /** One byte as written to the entropy-coded data. */
  function StuffByte(b: byte): seq<byte> {
    if b == 0xFF then [0xFF, 0x00] else [b]
  }

  /** Byte stuffing: a 0x00 after every 0xFF. */
  function Stuff(bs: seq<byte>): seq<byte> {
    if bs == [] then [] else StuffByte(bs[0]) + Stuff(bs[1..])
  }

  /** What a decoder does: drop the 0x00 after each 0xFF. */
  function Unstuff(s: seq<byte>): seq<byte> {
    if s == [] then []
    else if s[0] == 0xFF && |s| >= 2 && s[1] == 0x00 then [0xFF] + Unstuff(s[2..])
    else [s[0]] + Unstuff(s[1..])
  }

  lemma {:induction false} StuffAppend(a: seq<byte>, b: seq<byte>)
    ensures Stuff(a + b) == Stuff(a) + Stuff(b)
  {
    if a != [] {
      assert (a + b)[0] == a[0];
      assert (a + b)[1..] == a[1..] + b;
      StuffAppend(a[1..], b);
    } else {
      assert a + b == b;
    }
  }

  lemma {:induction false} GroupsAppend(s: string, t: string, g: nat)
    requires |s| == 8 * g
    ensures Groups(s + t) == Groups(s) + Groups(t)
    decreases g
  {
    if s == [] {
      assert s + t == t;
    } else if t == [] {
      assert s + t == s;
    } else {
      var u := s + t;
      GroupsFront(u);
      assert u[..8] == s[..8];
      assert u[8..] == s[8..] + t;
      GroupsAppend(s[8..], t, g - 1);
      GroupsFront(s);
    }
  }

  /** From 8 bits on, the first byte is the first 8 bits. */
  lemma GroupsFront(s: string)
    requires |s| >= 8
    ensures Groups(s) == [GroupByte(s[..8])] + Groups(s[8..])
  {
    if |s| == 8 {
      assert s[..8] == s && s[8..] == [];
    }
  }

  /** Appending a final group of up to 8 bits after whole groups appends
      its (stuffed) byte. */
  lemma GroupsSnoc(s: string, chunk: string, g: nat)
    requires |s| == 8 * g && 0 < |chunk| <= 8
    ensures Stuff(Groups(s + chunk)) == Stuff(Groups(s)) + StuffByte(GroupByte(chunk))
  {
    GroupsAppend(s, chunk, g);
    StuffAppend(Groups(s), [GroupByte(chunk)]);
  }

  /** Shifting in one more bit doubles the value and adds the bit. */
  lemma BinValueSnoc(t: string, c: char)
    ensures BinValue(t + [c]) == 2 * BinValue(t) + (if c == '1' then 1 else 0)
  {
    assert (t + [c])[..|t|] == t;
  }

  /** A whole group of 8 bits is its own value. */
  lemma FullGroup(chunk: string)
    requires |chunk| == 8
    ensures BinValue(chunk) < 256 && GroupByte(chunk) as int == BinValue(chunk)
  {
    BinValueBound(chunk);
    assert Pow2(8) == 256;
  }

  /** A last group of fewer than 8 bits, shifted left to fill a byte. */
  lemma PartialGroup(chunk: string)
    requires 0 < |chunk| < 8
    ensures Shl(BinValue(chunk), 8 - |chunk|) < 256
  {
    BinValueBound(chunk);
    ShlBound(BinValue(chunk), |chunk|, 8 - |chunk|);
    assert Pow2(8) == 256;
  }

  /** One pass of the packing loop: bit `bits[i]` joins the pending bits,
      and a pending group that reaches 8 bits becomes the next byte. */
  lemma PackStep(bits: string, i: nat, done: string, chunk: string, g: nat)
    requires i < |bits| && done + chunk == bits[..i]
    requires |done| == 8 * g && |chunk| < 8
    ensures done + (chunk + [bits[i]]) == bits[..i + 1]
    ensures BinValue(chunk + [bits[i]]) == 2 * BinValue(chunk) + (if bits[i] == '1' then 1 else 0)
    ensures |chunk| == 7 ==> (BinValue(chunk + [bits[i]]) < 256 &&
      Stuff(Groups(done + (chunk + [bits[i]]))) ==
        Stuff(Groups(done)) + StuffByte(BinValue(chunk + [bits[i]]) as byte))
  {
    assert bits[..i + 1] == bits[..i] + [bits[i]];
    BinValueSnoc(chunk, bits[i]);
    if |chunk| == 7 {
      FullGroup(chunk + [bits[i]]);
      GroupsSnoc(done, chunk + [bits[i]], g);
    }
  }

  /** Appends one finished byte, and the stuffed 0x00 after a 0xFF. */
  method AppendStuffed(out: seq<byte>, b: byte) returns (r: seq<byte>)
    ensures r == out + StuffByte(b)
  {
    r := out + [b];
    if b == 0xFF {
      r := r + [0x00];
    }
  }

  /** `_pack_bits`: shifts bits into `current`, emits a byte (stuffed) every
      8 bits, and pads a final partial byte with 0 bits. */
  method PackBits(bitstring: string) returns (out: seq<byte>)
    ensures out == Stuff(Groups(bitstring))
  {
    out := [];
    var current: nat := 0;
    var bitCount := 0;
    // the bits already emitted as whole bytes, and those held in `current`
    ghost var done: string := [];
    ghost var chunk: string := [];
    ghost var g := 0;
    for i := 0 to |bitstring|
      invariant done + chunk == bitstring[..i]
      invariant |done| == 8 * g && |chunk| == bitCount < 8
      invariant current == BinValue(chunk)
      invariant out == Stuff(Groups(done))
    {
      PackStep(bitstring, i, done, chunk, g);
      // current = (current << 1) | bit
      current := current * 2 + (if bitstring[i] == '1' then 1 else 0);
      bitCount := bitCount + 1;
      chunk := chunk + [bitstring[i]];
      if bitCount == 8 {
        out := AppendStuffed(out, current as byte);
        current := 0;
        bitCount := 0;
        done, chunk, g := done + chunk, [], g + 1;
      }
    }
    assert bitstring[..|bitstring|] == bitstring;
    if bitCount != 0 {
      PartialGroup(chunk);
      GroupsSnoc(done, chunk, g);
      // current <<= 8 - bit_count
      current := Shl(current, 8 - bitCount);
      out := AppendStuffed(out, current as byte);
    } else {
      assert done + chunk == done;
    }
  }

  /** Every 0xFF the packer emits is immediately followed by 0x00. */
  lemma {:induction false} StuffedFF(bs: seq<byte>)
    ensures var s := Stuff(bs);
      forall i :: 0 <= i < |s| && s[i] == 0xFF ==> i + 1 < |s| && s[i + 1] == 0x00
  {
    if bs != [] {
      StuffedFF(bs[1..]);
      var head := StuffByte(bs[0]);
      var s := Stuff(bs);
      assert s == head + Stuff(bs[1..]);
      forall i | 0 <= i < |s| && s[i] == 0xFF ensures i + 1 < |s| && s[i + 1] == 0x00 {
        if i >= |head| {
          assert s[i] == Stuff(bs[1..])[i - |head|];
        }
      }
    }
  }

  /** Removing the stuffed zeros gives back the packed bytes. */
  lemma {:induction false} UnstuffStuff(bs: seq<byte>)
    ensures Unstuff(Stuff(bs)) == bs
  {
    if bs != [] {
      UnstuffStuff(bs[1..]);
      var s := Stuff(bs);
      if bs[0] == 0xFF {
        assert s[2..] == Stuff(bs[1..]);
      } else {
        assert s[1..] == Stuff(bs[1..]);
      }
    }
  }

  /** One byte per started group of 8 bits. */
  lemma {:induction false} GroupsLength(s: string)
    ensures |Groups(s)| == (|s| + 7) / 8
    decreases |s|
  {
    if |s| > 8 {
      GroupsLength(s[8..]);
    }
  }

  /** The 8 bits of a byte, most significant first. */
  function ByteBits(b: byte): string {
    ToBin(b as nat, 8)
  }

  function BitsOf(bs: seq<byte>): string {
    if bs == [] then [] else ByteBits(bs[0]) + BitsOf(bs[1..])
  }

  lemma GroupByteBits(t: string)
    requires 0 < |t| <= 8
    ensures ByteBits(GroupByte(t)) == Normalize(t) + Zeros(8 - |t|)
  {
    BinValuePadded(t, 8 - |t|);
    ToBinOfValue(t + Zeros(8 - |t|));
    assert Normalize(t + Zeros(8 - |t|)) == Normalize(t) + Zeros(8 - |t|);
  }

  /** The 0 bits that fill the last byte of n bits. */
  function PadLength(n: nat): (k: nat)
    ensures k < 8 && (n + k) % 8 == 0
  {
    (8 - n % 8) % 8
  }

  /** The packed bytes carry the input bits in order, followed by 0 bits up
      to the byte boundary. */
  lemma {:induction false} GroupsBits(s: string)
    ensures BitsOf(Groups(s)) == Normalize(s) + Zeros(PadLength(|s|))
    decreases |s|
  {
    if s == [] {
      assert Normalize(s) + Zeros(0) == [];
    } else if |s| <= 8 {
      var b := GroupByte(s);
      assert BitsOf([b]) == ByteBits(b) + BitsOf([]);
      GroupByteBits(s);
    } else {
      GroupsBitsCons(s);
      GroupsBits(s[8..]);
      NormalizeSplit(s);
    }
  }

  lemma GroupsBitsCons(s: string)
    requires |s| > 8
    ensures BitsOf(Groups(s)) == Normalize(s[..8]) + BitsOf(Groups(s[8..]))
  {
    var b := GroupByte(s[..8]);
    var rest := Groups(s[8..]);
    assert ([b] + rest)[1..] == rest;
    GroupByteBits(s[..8]);
    assert Normalize(s[..8]) + Zeros(0) == Normalize(s[..8]);
  }

  lemma NormalizeSplit(s: string)
    requires |s| > 8
    ensures Normalize(s[..8]) + (Normalize(s[8..]) + Zeros(PadLength(|s| - 8))) ==
      Normalize(s) + Zeros(PadLength(|s|))
  {
    assert PadLength(|s| - 8) == PadLength(|s|);
    assert Normalize(s) == Normalize(s[..8]) + Normalize(s[8..]);
  }

  // ---------------------------------------------------------------------
  // _encode_dc
  // ---------------------------------------------------------------------

  /** `int.bit_length` for a natural number. */
  function BitLength(n: nat): (k: nat)
    ensures n == 0 <==> k == 0
    ensures n > 0 ==> Pow2(k - 1) <= n < Pow2(k)
  {
    if n == 0 then 0 else 1 + BitLength(n / 2)
  }

  lemma {:induction false} BitLengthAtMost(n: nat, k: nat)
    ensures BitLength(n) <= k <==> n < Pow2(k)
  {
    if n > 0 && k > 0 {
      if BitLength(n) <= k {
        Pow2Monotone(BitLength(n), k);
      } else {
        Pow2Monotone(k, BitLength(n) - 1);
      }
    } else if n > 0 {
      assert Pow2(0) == 1;
    }
  }

  /** The DC_CODEWORDS table: the Huffman code of each size category. */
  function DcCodeword(size: nat): (c: Option<string>)
    ensures c.Some? <==> size <= 11
  {
    match size
    case 0 => Some("00")
    case 1 => Some("010")
    case 2 => Some("011")
    case 3 => Some("100")
    case 4 => Some("101")
    case 5 => Some("110")
    case 6 => Some("1110")
    case 7 => Some("11110")
    case 8 => Some("111110")
    case 9 => Some("1111110")
    case 10 => Some("11111110")
    case 11 => Some("111111110")
    case _ => None
  }

  function Abs(x: int): nat { if x < 0 then -x else x }

  /** The amplitude: |dc|'s bits for a positive value, the one's complement
      2^size - 1 + dc for a negative one. */
  function Amplitude(dc: int): nat {
    var size := BitLength(Abs(dc));
    if dc > 0 then Abs(dc) else Pow2(size) - 1 + dc
  }

  /** `_encode_dc`: the size category's codeword and `size` amplitude bits;
      a size with no codeword is a KeyError. */
  function EncodeDc(dc: int): (r: Result<string, Error>)
    ensures r.Err? <==> Abs(dc) >= 2048
    ensures r.Err? ==> r.error == KeyError
  {
    if dc == 0 then Ok("00")
    else
      var size := BitLength(Abs(dc));
      BitLengthAtMost(Abs(dc), 11);
      var bits := ToBin(Amplitude(dc), size);
      match DcCodeword(size)
      case None => Err(KeyError)
      case Some(cw) => Ok(cw + bits)
  }

  /** EXTEND (section F.2.2.1 of ITU-T T.81): an amplitude below 2^(size-1)
      is a negative difference. */
  function Extend(v: nat, size: nat): int {
    if size == 0 then 0 else if v < Pow2(size - 1) then v - (Pow2(size) - 1) else v
  }

  /** The amplitude fits in `size` bits, leads with a 1 exactly for positive
      differences, and EXTEND recovers the difference. */
  lemma AmplitudeRoundTrip(dc: int)
    requires dc != 0
    ensures var size := BitLength(Abs(dc));
      var bits := ToBin(Amplitude(dc), size);
      size >= 1 && Amplitude(dc) < Pow2(size) &&
      (bits[0] == '1' <==> dc > 0) &&
      Extend(BinValue(bits), size) == dc
  {
    var size := BitLength(Abs(dc));
    var amp := Amplitude(dc);
    assert Pow2(size) == 2 * Pow2(size - 1);
    ToBinValue(amp, size);
    var bits := ToBin(amp, size);
    LeadingBit(amp, size);
  }

  /** The leading bit of an n-bit value is 1 exactly when it is at least 2^(n-1). */
  lemma {:induction false} LeadingBit(v: nat, n: nat)
    requires n >= 1 && v < Pow2(n)
    ensures ToBin(v, n)[0] == '1' <==> v >= Pow2(n - 1)
  {
    if n > 1 {
      assert ToBin(v, n)[0] == ToBin(v / 2, n - 1)[0];
      assert Pow2(n - 1) == 2 * Pow2(n - 2);
      LeadingBit(v / 2, n - 1);
    }
  }

  /** The encoding of a non-zero difference is its codeword followed by
      exactly `size` amplitude bits; zero encodes as "00". */
  lemma EncodeDcShape(dc: int)
    requires Abs(dc) < 2048
    ensures dc == 0 ==> EncodeDc(dc) == Ok("00")
    ensures dc != 0 ==> var size := BitLength(Abs(dc));
      1 <= size <= 11 && DcCodeword(size).Some? &&
      EncodeDc(dc) == Ok(DcCodeword(size).value + ToBin(Amplitude(dc), size))
  {
    if dc != 0 {
      BitLengthAtMost(Abs(dc), 11);
    }
  }

  // ---------------------------------------------------------------------
  // Marker segments
  // ---------------------------------------------------------------------

  const SOI: int := 0xD8
  const APP0: int := 0xE0
  const DQT: int := 0xDB
  const SOF0: int := 0xC0
  const DHT: int := 0xC4
  const SOS: int := 0xDA
  const EOI: int := 0xD9

  /** The luminance quantisation table (Table K.1 of ITU-T T.81). */
  const LUMINANCE_QUANT_TABLE: seq<byte> := [
    16, 11, 10, 16, 24, 40, 51, 61,
    12, 12, 14, 19, 26, 58, 60, 55,
    14, 13, 16, 24, 40, 57, 69, 56,
    14, 17, 22, 29, 51, 87, 80, 62,
    18, 22, 37, 56, 68, 109, 103, 77,
    24, 35, 55, 64, 81, 104, 113, 92,
    49, 64, 78, 87, 103, 121, 120, 101,
    72, 92, 95, 98, 112, 100, 103, 99
  ]

  /** The DHT code-length counts and symbols as written (the counts carry a
      leading 0 compared with Tables K.3 and K.5 of ITU-T T.81). */
  const DC_BITS: seq<byte> := [0, 0, 1, 5, 1, 1, 1, 1, 1, 1, 0, 0, 0, 0, 0, 0]
  const DC_VALS: seq<byte> := [0, 1, 2, 3, 4, 5, 6, 7, 8, 9, 10, 11]
  const AC_BITS: seq<byte> := [0, 0, 2, 1, 3, 3, 2, 4, 3, 5, 5, 4, 4, 0, 0, 1, 0x7D]
  const AC_VALS: seq<byte> := [
    0x01, 0x02, 0x03, 0x00, 0x04, 0x11, 0x05, 0x12, 0x21, 0x31, 0x41, 0x06,
    0x13, 0x51, 0x61, 0x07, 0x22, 0x71, 0x14, 0x32, 0x81, 0x91, 0xA1, 0x08,
    0x23, 0x42, 0xB1, 0xC1, 0x15, 0x52, 0xD1, 0xF0, 0x24, 0x33, 0x62, 0x72,
    0x82, 0x09, 0x0A, 0x16, 0x17, 0x18, 0x19, 0x1A, 0x25, 0x26, 0x27, 0x28,
    0x29, 0x2A, 0x34, 0x35, 0x36, 0x37, 0x38, 0x39, 0x3A, 0x43, 0x44, 0x45,
    0x46, 0x47, 0x48, 0x49, 0x4A, 0x53, 0x54, 0x55, 0x56, 0x57, 0x58, 0x59,
    0x5A, 0x63, 0x64, 0x65, 0x66, 0x67, 0x68, 0x69, 0x6A, 0x73, 0x74, 0x75,
    0x76, 0x77, 0x78, 0x79, 0x7A, 0x83, 0x84, 0x85, 0x86, 0x87, 0x88, 0x89,
    0x8A, 0x92, 0x93, 0x94, 0x95, 0x96, 0x97, 0x98, 0x99, 0x9A, 0xA2, 0xA3,
    0xA4, 0xA5, 0xA6, 0xA7, 0xA8, 0xA9, 0xAA, 0xB2, 0xB3, 0xB4, 0xB5, 0xB6,
    0xB7, 0xB8, 0xB9, 0xBA, 0xC2, 0xC3, 0xC4, 0xC5, 0xC6, 0xC7, 0xC8, 0xC9,
    0xCA, 0xD2, 0xD3, 0xD4, 0xD5, 0xD6, 0xD7, 0xD8, 0xD9, 0xDA, 0xE1, 0xE2,
    0xE3, 0xE4, 0xE5, 0xE6, 0xE7, 0xE8, 0xE9, 0xEA, 0xF1, 0xF2, 0xF3, 0xF4,
    0xF5, 0xF6, 0xF7, 0xF8, 0xF9, 0xFA
  ]

  /** `_emit_marker`: 0xFF and the low byte of the marker code (Python's
      `m & 0xFF` on an arbitrary-precision integer is m mod 256). */
  function EmitMarker(m: int): (r: seq<byte>)
    ensures |r| == 2 && r[0] == 0xFF && r[1] as int == m % 256
    ensures 0 <= m < 256 ==> r[1] as int == m
  {
    [0xFF, (m % 256) as byte]
  }

  /** A two-byte big-endian field. */
  function Be16(hi: byte, lo: byte): nat {
    hi as nat * 256 + lo as nat
  }

  /** `int.to_bytes(2, "big")`: OverflowError for a value that does not fit
      in 16 unsigned bits. */
  function ToBytes2(n: int): (r: Result<seq<byte>, Error>)
    ensures r.Err? <==> !(0 <= n < 65536)
    ensures r.Err? ==> r.error == OverflowError
    ensures r.Ok? ==> |r.value| == 2 && Be16(r.value[0], r.value[1]) == n
  {
    if 0 <= n < 65536 then Ok([(n / 256) as byte, (n % 256) as byte]) else Err(OverflowError)
  }

  /** The length field of the segment whose marker starts at `off`. */
  function LengthAt(d: seq<byte>, off: nat): nat
    requires off + 4 <= |d|
  {
    Be16(d[off + 2], d[off + 3])
  }

  /** `_jfif_segment`: APP0 with identifier "JFIF\0", version 1.01, no
      density units, a 1:1 aspect ratio and no thumbnail. */
  method JfifSegment() returns (data: seq<byte>)
    ensures |data| == 18 && data[..2] == EmitMarker(APP0)
    ensures LengthAt(data, 0) == |data| - 2 == 16
    ensures data[4..9] == [0x4A, 0x46, 0x49, 0x46, 0x00]
    ensures data[9..11] == [0x01, 0x01] && data[11] == 0x00
    ensures data[12..16] == [0x00, 0x01, 0x00, 0x01] && data[16..] == [0x00, 0x00]
  {
    data := EmitMarker(APP0);
    data := data + [0x00, 0x10];
    data := data + [0x4A, 0x46, 0x49, 0x46, 0x00];
    data := data + [0x01, 0x01];
    data := data + [0x00];
    data := data + [0x00, 0x01, 0x00, 0x01];
    data := data + [0x00, 0x00];
  }

  /** `_dqt_segment`: table 0 with 8-bit precision, then its 64 entries. */
  method DqtSegment() returns (data: seq<byte>)
    ensures |data| == 69 && data[..2] == EmitMarker(DQT)
    ensures LengthAt(data, 0) == |data| - 2 == 67
    ensures data[4] == 0x00 && data[5..] == LUMINANCE_QUANT_TABLE
  {
    data := EmitMarker(DQT);
    data := data + [0x00, 0x43];
    data := data + [0x00];
    data := data + LUMINANCE_QUANT_TABLE;
  }

  /** `_sof0_segment`: 8-bit precision, the height and then the width as
      16-bit big-endian values, one component sampled 1x1 with table 0.
      A dimension outside 0..65535 is an OverflowError. */
  method Sof0Segment(width: int, height: int) returns (r: Result<seq<byte>, Error>)
    ensures r.Err? <==> !(0 <= height < 65536 && 0 <= width < 65536)
    ensures r.Err? ==> r.error == OverflowError
    ensures r.Ok? ==> var d := r.value;
      |d| == 13 && d[..2] == EmitMarker(SOF0) &&
      LengthAt(d, 0) == |d| - 2 == 11 && d[4] == 0x08 &&
      Be16(d[5], d[6]) == height && Be16(d[7], d[8]) == width &&
      d[9..] == [0x01, 0x01, 0x11, 0x00]
  {
    var data := EmitMarker(SOF0);
    data := data + [0x00, 0x0B];
    data := data + [0x08];
    var h := ToBytes2(height);
    if h.Err? {
      return Err(h.error);
    }
    data := data + h.value;
    var w := ToBytes2(width);
    if w.Err? {
      return Err(w.error);
    }
    data := data + w.value;
    data := data + [0x01];
    data := data + [0x01];
    data := data + [0x11];
    data := data + [0x00];
    r := Ok(data);
  }

  /** `_dht_segment`: a DC part (marker, length, class/id 0x00, counts,
      symbols) followed by an AC part (length, class/id 0x10, counts,
      symbols) with no marker of its own; each length field is 3 plus the
      number of counts and symbols. */
  method DhtSegment() returns (data: seq<byte>)
    ensures |data| == 215 && data[..2] == EmitMarker(DHT)
    ensures LengthAt(data, 0) == 3 + |DC_BITS| + |DC_VALS| == 31
    ensures data[4] == 0x00 && data[5..21] == DC_BITS && data[21..33] == DC_VALS
    ensures Be16(data[33], data[34]) == 3 + |AC_BITS| + |AC_VALS| == |data| - 33
    ensures data[35] == 0x10 && data[36..53] == AC_BITS && data[53..] == AC_VALS
  {
    assert |DC_BITS| == 16 && |DC_VALS| == 12 && |AC_BITS| == 17 && |AC_VALS| == 162;
    data := EmitMarker(DHT);
    var length := ToBytes2(3 + |DC_BITS| + |DC_VALS|);
    data := data + length.value;
    data := data + [0x00];
    data := data + DC_BITS;
    data := data + DC_VALS;
    length := ToBytes2(3 + |AC_BITS| + |AC_VALS|);
    data := data + length.value;
    data := data + [0x10];
    data := data + AC_BITS;
    data := data + AC_VALS;
  }

  /** `_sos_segment`: one component with tables 0/0, spectral selection
      0..63, no successive approximation. */
  method SosSegment() returns (data: seq<byte>)
    ensures |data| == 10 && data[..2] == EmitMarker(SOS)
    ensures LengthAt(data, 0) == |data| - 2 == 8
    ensures data[4..] == [0x01, 0x01, 0x00, 0x00, 0x3F, 0x00]
  {
    data := EmitMarker(SOS);
    data := data + [0x00, 0x08];
    data := data + [0x01];
    data := data + [0x01];
    data := data + [0x00];
    data := data + [0x00];
    data := data + [0x3F];
    data := data + [0x00];
  }

  // ---------------------------------------------------------------------
  // generate_grayscale_jpeg
  // ---------------------------------------------------------------------

  /** `round(0.5 * n)`: n / 2 rounded to the nearest integer, a tie going
      to the even neighbour (Python's rounding). */
  function HalfRounded(n: int): (r: int)
    ensures -1 <= 2 * r - n <= 1
    ensures (2 * r - n == 1 || 2 * r - n == -1) ==> r % 2 == 0
  {
    if n % 2 == 0 then n / 2
    else if ((n - 1) / 2) % 2 == 0 then (n - 1) / 2
    else (n + 1) / 2
  }

  /** The rounded value is the nearest integer to n / 2, and the even one
      of the two when n / 2 lies halfway. */
  lemma HalfRoundedNearest(n: int, k: int)
    ensures Abs(2 * HalfRounded(n) - n) <= Abs(2 * k - n)
    ensures (Abs(2 * k - n) == Abs(2 * HalfRounded(n) - n) && k != HalfRounded(n)) ==>
      HalfRounded(n) % 2 == 0
  {
  }

  /** The DC coefficient of a uniform block of grey `value`. */
  function DcCoefficient(value: int): (dc: int)
    requires 0 <= value <= 255
    ensures -64 <= dc <= 64
  {
    HalfRounded(value - 128)
  }

  /** The DC difference category of every grey level is at most 7, so the
      codeword lookup never fails. */
  lemma DcSizeAtMost7(value: int)
    requires 0 <= value <= 255
    ensures BitLength(Abs(DcCoefficient(value))) <= 7
    ensures EncodeDc(DcCoefficient(value)).Ok?
  {
    BitLengthAtMost(Abs(DcCoefficient(value)), 7);
    assert Pow2(7) == 128;
  }

  const EOB: string := "1010"

  /** The entropy-coded bits of the single block: its DC code and the
      end-of-block code. */
  function EntropyBits(value: int): (bits: string)
    requires 0 <= value <= 255
    ensures |bits| <= 16
  {
    var dc := DcCoefficient(value);
    DcSizeAtMost7(value);
    EncodeDcLength(dc);
    EncodeDc(dc).value + EOB
  }

  /** An encoded difference of category size is at most 9 + size bits. */
  lemma EncodeDcLength(dc: int)
    requires EncodeDc(dc).Ok?
    ensures |EncodeDc(dc).value| <= (if dc == 0 then 2 else DcCodewordLength(BitLength(Abs(dc))) + BitLength(Abs(dc)))
    ensures -64 <= dc <= 64 ==> |EncodeDc(dc).value| <= 12
  {
    if dc != 0 {
      EncodeDcShape(dc);
      if -64 <= dc <= 64 {
        BitLengthAtMost(Abs(dc), 7);
        assert Pow2(7) == 128;
      }
    }
  }

  function DcCodewordLength(size: nat): nat {
    if DcCodeword(size).Some? then |DcCodeword(size).value| else 0
  }

  /** The marker of code m starts at byte `off`. */
  predicate MarkerAt(j: seq<byte>, off: nat, m: int) {
    off + 2 <= |j| && j[off..off + 2] == EmitMarker(m)
  }

  /** The layout of the assembled file around entropy-coded data `e`:
      SOI, APP0, DQT, SOF0 (8x8), DHT, SOS, `e` and EOI, in that order, each
      segment's length field reaching the next part. */
  predicate JpegLayout(j: seq<byte>, e: seq<byte>) {
    |j| == 329 + |e| && MarkerAt(j, 0, SOI) &&
    MarkerAt(j, 2, APP0) && 2 + 2 + LengthAt(j, 2) == 20 &&
    MarkerAt(j, 20, DQT) && 20 + 2 + LengthAt(j, 20) == 89 &&
    MarkerAt(j, 89, SOF0) && 89 + 2 + LengthAt(j, 89) == 102 &&
    Be16(j[94], j[95]) == 8 && Be16(j[96], j[97]) == 8 &&
    MarkerAt(j, 102, DHT) && 102 + 2 + LengthAt(j, 102) == 135 &&
    135 + Be16(j[135], j[136]) == 317 &&
    MarkerAt(j, 317, SOS) && 317 + 2 + LengthAt(j, 317) == 327 &&
    j[327..|j| - 2] == e && MarkerAt(j, |j| - 2, EOI)
  }

  /** `generate_grayscale_jpeg` without the final file write: a grey level
      outside 0..255 is a ValueError, checked before anything is built;
      otherwise the file has the layout above around the packed bits of
      the block's DC code and end-of-block code. */
  method GenerateGrayscaleJpeg(value: int) returns (r: Result<seq<byte>, Error>)
    ensures r.Err? <==> !(0 <= value <= 255)
    ensures r.Err? ==> r.error == ValueError
    ensures r.Ok? ==> JpegLayout(r.value, Stuff(Groups(EntropyBits(value))))
  {
    if !(0 <= value <= 255) {
      return Err(ValueError);
    }
    var dc := DcCoefficient(value);
    DcSizeAtMost7(value);
    var entropyBits := EncodeDc(dc).value;
    entropyBits := entropyBits + EOB;
    var entropyData := PackBits(entropyBits);

    var soi := EmitMarker(SOI);
    var app0 := JfifSegment();
    var dqt := DqtSegment();
    var sof0 := Sof0Segment(8, 8);
    var dht := DhtSegment();
    var sos := SosSegment();
    var eoi := EmitMarker(EOI);
    var jpeg := soi;
    jpeg := jpeg + app0;
    jpeg := jpeg + dqt;
    jpeg := jpeg + sof0.value;
    jpeg := jpeg + dht;
    jpeg := jpeg + sos;
    jpeg := jpeg + entropyData;
    jpeg := jpeg + eoi;
    Layout(soi, app0, dqt, sof0.value, dht, sos, entropyData, eoi);
    r := Ok(jpeg);
  }

  /** Concatenating the parts puts each marker and length field where
      the layout says. */
  lemma Layout(soi: seq<byte>, app0: seq<byte>, dqt: seq<byte>, sof0: seq<byte>,
               dht: seq<byte>, sos: seq<byte>, entropy: seq<byte>, eoi: seq<byte>)
    requires soi == EmitMarker(SOI) && eoi == EmitMarker(EOI)
    requires |app0| == 18 && app0[..2] == EmitMarker(APP0) && LengthAt(app0, 0) == 16
    requires |dqt| == 69 && dqt[..2] == EmitMarker(DQT) && LengthAt(dqt, 0) == 67
    requires |sof0| == 13 && sof0[..2] == EmitMarker(SOF0) && LengthAt(sof0, 0) == 11
    requires Be16(sof0[5], sof0[6]) == 8 && Be16(sof0[7], sof0[8]) == 8
    requires |dht| == 215 && dht[..2] == EmitMarker(DHT) && LengthAt(dht, 0) == 31
    requires Be16(dht[33], dht[34]) == 182
    requires |sos| == 10 && sos[..2] == EmitMarker(SOS) && LengthAt(sos, 0) == 8
    ensures JpegLayout(soi + app0 + dqt + sof0 + dht + sos + entropy + eoi, entropy)
  {
    var j := soi + app0 + dqt + sof0 + dht + sos + entropy + eoi;
    assert j[2..20] == app0;
    assert j[20..89] == dqt;
    assert j[89..102] == sof0;
    assert j[102..317] == dht;
    assert j[317..327] == sos;
    assert j[327..|j| - 2] == entropy;
    assert j[|j| - 2..] == eoi;
  }
}
