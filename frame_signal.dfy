/** The wire record that the kernel sensor pushes into its ring buffer, and the
    user-space decoder that reinterprets ring bytes as that record.

    The record is `#[repr(C)]` with a single `u64` field, so it is exactly eight
    bytes with no padding. The sensor is compiled for a little-endian BPF target,
    so the field is laid out least significant byte first. */
module Signal {
  import opened Types

  /** `size_of::<FrameSignal>()`. */
  const SIZE: nat := 8

  datatype FrameSignal = FrameSignal(ktimeNs: u64)

  /** `FrameSignal::new`: a total constructor that stores the timestamp unchanged. */
  function New(ktimeNs: u64): (s: FrameSignal)
    ensures s.ktimeNs == ktimeNs
  {
    FrameSignal(ktimeNs)
  }

  function Pow256(n: nat): (p: nat)
    ensures p >= 1
  {
    if n == 0 then 1 else 256 * Pow256(n - 1)
  }

  /** The `n` least significant bytes of `x`, least significant first. */
  function ToLittleEndian(x: nat, n: nat): (bytes: seq<u8>)
    ensures |bytes| == n
  {
    if n == 0 then [] else [x % 256] + ToLittleEndian(x / 256, n - 1)
  }

  /** The number whose little-endian representation is `bytes`. */
  function FromLittleEndian(bytes: seq<u8>): (x: nat)
    ensures x < Pow256(|bytes|)
  {
    if bytes == [] then 0 else bytes[0] + 256 * FromLittleEndian(bytes[1..])
  }

  /** Reading back the bytes of a number that fits recovers the number. */
  lemma {:induction false} FromToLittleEndian(x: nat, n: nat)
    requires x < Pow256(n)
    ensures FromLittleEndian(ToLittleEndian(x, n)) == x
  {
    if n > 0 {
      var rest := ToLittleEndian(x / 256, n - 1);
      assert ToLittleEndian(x, n)[1..] == rest;
      FromToLittleEndian(x / 256, n - 1);
    }
  }

  /** Writing out the value of a byte string recovers the byte string. */
  lemma {:induction false} ToFromLittleEndian(bytes: seq<u8>)
    ensures ToLittleEndian(FromLittleEndian(bytes), |bytes|) == bytes
  {
    if bytes != [] {
      var x := FromLittleEndian(bytes);
      var tail := FromLittleEndian(bytes[1..]);
      assert x % 256 == bytes[0] && x / 256 == tail;
      ToFromLittleEndian(bytes[1..]);
    }
  }

  /** The bytes the sensor writes into its ring reservation (`entry.write`). */
  function Encode(s: FrameSignal): (bytes: seq<u8>)
    ensures |bytes| == SIZE
  {
    ToLittleEndian(s.ktimeNs, SIZE)
  }

  /** `trans`: an unaligned read of the first `SIZE` bytes of a ring item.
      `trans` does no length check, so a caller must supply at least `SIZE`
      bytes; bytes past the first `SIZE` are ignored, and the result is the
      record whose encoding is exactly those first `SIZE` bytes. */
  function Trans(bytes: seq<u8>): (s: FrameSignal)
    requires |bytes| >= SIZE
    ensures Encode(s) == bytes[..SIZE]
  {
    var prefix := bytes[..SIZE];
    ToFromLittleEndian(prefix);
    FrameSignal(FromLittleEndian(prefix))
  }

  /** Decoding what the sensor writes for `FrameSignal::new(k)` yields `k`. */
  lemma DecodeEncode(ktimeNs: u64)
    ensures Trans(Encode(New(ktimeNs))).ktimeNs == ktimeNs
  {
    var bytes := Encode(New(ktimeNs));
    assert bytes[..SIZE] == bytes;
    assert Pow256(SIZE) == U64_LIMIT;
    FromToLittleEndian(ktimeNs, SIZE);
  }

  /** Two byte strings decode to the same record exactly when their first
      `SIZE` bytes agree. */
  lemma TransInjective(a: seq<u8>, b: seq<u8>)
    requires |a| >= SIZE && |b| >= SIZE
    ensures Trans(a) == Trans(b) <==> a[..SIZE] == b[..SIZE]
  {
    if Trans(a) == Trans(b) {
      assert a[..SIZE] == Encode(Trans(a)) == Encode(Trans(b)) == b[..SIZE];
    }
  }
}
