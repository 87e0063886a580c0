// The two conversions of Go's big.Int that the source relies on: big-endian bytes
// to a natural number and back, the second without leading zeros.

module BigEndian {

  type Byte = n: nat | n < 256

  /** big.Int.SetBytes: big-endian. */
  function SetBytes(b: seq<Byte>): nat {
    if b == [] then 0 else SetBytes(b[..|b| - 1]) * 256 + b[|b| - 1]
  }

  /** big.Int.Bytes: big-endian without leading zeros. */
  function Bytes(n: nat): seq<Byte> {
    if n == 0 then [] else Bytes(n / 256) + [n % 256]
  }

  function Zeros(n: nat): seq<Byte> {
    seq(n, _ => 0)
  }

  /** Restores the leading zeros that big.Int strips. */
  function Padded(b: seq<Byte>, len: int): seq<Byte> {
    if len > |b| then Zeros(len - |b|) + b else b
  }

  lemma {:induction false} BytesRoundTrip(b: seq<Byte>)
    ensures |Bytes(SetBytes(b))| <= |b|
    ensures Padded(Bytes(SetBytes(b)), |b|) == b
  {
    if b != [] {
      var front, last := b[..|b| - 1], b[|b| - 1];
      BytesRoundTrip(front);
      var s := SetBytes(front);
      assert (s * 256 + last) / 256 == s && (s * 256 + last) % 256 == last;
      var shown := Bytes(SetBytes(b));
      if s * 256 + last == 0 {
        assert s == 0 && last == 0;
        assert Bytes(s) == [];
        assert Padded([], |b|) == Padded([], |front|) + [0];
      } else {
        assert shown == Bytes(s) + [last];
        assert Padded(shown, |b|) == Padded(Bytes(s), |front|) + [last];
      }
      assert b == front + [last];
    }
  }
}
