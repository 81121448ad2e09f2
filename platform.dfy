/**
 * Shared vocabulary of the firmware model: fixed-width integer ranges, the
 * ESP-IDF error codes the core returns, an Option type, and the little-endian
 * byte layout that `memcpy` of a host integer produces on the ESP32 (and that
 * Python's `struct` format '<' reads back).
 */
module Platform {

  type uint8 = x: int | 0 <= x < 0x100
  type uint16 = x: int | 0 <= x < 0x1_0000
  type uint32 = x: int | 0 <= x < 0x1_0000_0000
  type uint64 = x: int | 0 <= x < 0x1_0000_0000_0000_0000
  type int64 = x: int | -0x8000_0000_0000_0000 <= x < 0x8000_0000_0000_0000

  const UINT32_MOD: nat := 0x1_0000_0000
  const UINT16_MOD: nat := 0x1_0000

  datatype Option<T> = None | Some(value: T)

  /** The `esp_err_t` values the modelled functions return. */
  datatype EspErr =
    | EspOk               // ESP_OK
    | EspFail             // ESP_FAIL
    | ErrInvalidArg       // ESP_ERR_INVALID_ARG
    | ErrInvalidState     // ESP_ERR_INVALID_STATE
    | ErrInvalidSize      // ESP_ERR_INVALID_SIZE
    | ErrNotFound         // ESP_ERR_NOT_FOUND
    | ErrNvsNotInitialized // ESP_ERR_NVS_NOT_INITIALIZED
    | ErrNvsNotFound      // ESP_ERR_NVS_NOT_FOUND

  /** C's `uint32_t` addition and multiplication wrap modulo 2^32. */
  function Wrap32(x: int): (r: uint32)
    ensures 0 <= x < UINT32_MOD ==> r == x
  {
    x % UINT32_MOD
  }

  /** A count stored in a `uint16_t` field: taken modulo 2^16, so never more than the count. */
  function Wrap16(n: nat): (r: uint16)
    ensures r <= n
    ensures n < UINT16_MOD ==> r == n
  {
    n % UINT16_MOD
  }

  /** The bit pattern of a signed 64-bit value read back as unsigned
      (what Python's 'Q' returns for bytes written from an `int64_t`). */
  function AsUnsigned64(t: int64): (u: uint64)
    ensures t >= 0 ==> u == t
    ensures t < 0 ==> u == t + 0x1_0000_0000_0000_0000
  {
    if t >= 0 then t else t + 0x1_0000_0000_0000_0000
  }

  function Pow256(k: nat): (p: nat)
    ensures p >= 1
  {
    if k == 0 then 1 else 256 * Pow256(k - 1)
  }

  lemma Pow256Values()
    ensures Pow256(1) == 0x100 && Pow256(2) == 0x1_0000
    ensures Pow256(4) == 0x1_0000_0000 && Pow256(8) == 0x1_0000_0000_0000_0000
  {
    assert Pow256(2) == 256 * Pow256(1);
    assert Pow256(4) == 256 * (256 * Pow256(2));
    assert Pow256(8) == 256 * (256 * (256 * (256 * Pow256(4))));
  }

  /** The `width` bytes of `n`, least significant first. */
  function LittleEndian(n: nat, width: nat): (r: seq<uint8>)
    requires n < Pow256(width)
    ensures |r| == width
    decreases width
  {
    if width == 0 then []
    else
      assert n / 256 < Pow256(width - 1) by { DivBound(n, Pow256(width - 1)); }
      [n % 256] + LittleEndian(n / 256, width - 1)
  }

  /** The unsigned value of little-endian bytes. */
  function FromLittleEndian(s: seq<uint8>): (n: nat)
    ensures n < Pow256(|s|)
  {
    if s == [] then 0
    else
      var rest := FromLittleEndian(s[1..]);
      assert s[0] + 256 * rest < Pow256(|s|) by {
        assert rest + 1 <= Pow256(|s| - 1);
        MulMono(rest + 1, Pow256(|s| - 1));
      }
      s[0] + 256 * rest
  }

  lemma DivBound(n: nat, p: nat)
    requires n < 256 * p
    ensures n / 256 < p
  {
  }

  lemma MulMono(a: nat, b: nat)
    requires a <= b
    ensures 256 * a <= 256 * b
  {
  }

  /** Reading back what was written gives the value that was written. */
  lemma {:induction false} DecodeEncode(n: nat, width: nat)
    requires n < Pow256(width)
    ensures FromLittleEndian(LittleEndian(n, width)) == n
    decreases width
  {
    if width > 0 {
      DivBound(n, Pow256(width - 1));
      var s := LittleEndian(n, width);
      assert s[1..] == LittleEndian(n / 256, width - 1);
      DecodeEncode(n / 256, width - 1);
    }
  }

  /** Writing back what was read gives the bytes that were read. */
  lemma {:induction false} EncodeDecode(s: seq<uint8>)
    ensures LittleEndian(FromLittleEndian(s), |s|) == s
  {
    if s != [] {
      EncodeDecode(s[1..]);
      var n := FromLittleEndian(s);
      assert n % 256 == s[0] && n / 256 == FromLittleEndian(s[1..]);
    }
  }

  /** A field holding the encoding of `n` reads back as `n`. */
  lemma FieldAt(h: seq<uint8>, off: nat, n: nat, width: nat)
    requires n < Pow256(width) && off + width <= |h| && h[off..off + width] == LittleEndian(n, width)
    ensures FromLittleEndian(h[off..off + width]) == n
  {
    DecodeEncode(n, width);
  }

  /** Where each part of a four-part record lies. */
  lemma Slices4(a: seq<uint8>, b: seq<uint8>, c: seq<uint8>, d: seq<uint8>)
    ensures var h := a + b + c + d;
      && h[|a|..|a| + |b|] == b && h[|a| + |b|..|a| + |b| + |c|] == c && h[|a| + |b| + |c|..] == d
  {
  }

  /** Where each part of a six-part record lies. */
  lemma Slices6(a: seq<uint8>, b: seq<uint8>, c: seq<uint8>, d: seq<uint8>, e: seq<uint8>, g: seq<uint8>)
    ensures var h := a + b + c + d + e + g;
      var i, j, k, m := |a| + |b|, |a| + |b| + |c|, |a| + |b| + |c| + |d|, |a| + |b| + |c| + |d| + |e|;
      && h[|a|..i] == b && h[i..j] == c && h[j..k] == d && h[k..m] == e && h[m..] == g
  {
  }

  /** Encoding is injective at a fixed width. */
  lemma EncodeInjective(a: nat, b: nat, width: nat)
    requires a < Pow256(width) && b < Pow256(width)
    requires LittleEndian(a, width) == LittleEndian(b, width)
    ensures a == b
  {
    DecodeEncode(a, width);
    DecodeEncode(b, width);
  }
}
