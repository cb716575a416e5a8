/** Little-endian integers, as guest memory and command words hold them. */
module ByteOrder {
  import opened Canonical

  function ToLittleEndian(value: nat, n: nat): (bytes: seq<U8>)
    ensures |bytes| == n
  {
    if n == 0 then [] else [value % 256] + ToLittleEndian(value / 256, n - 1)
  }

  function FromLittleEndian(bytes: seq<U8>): (value: nat) {
    if bytes == [] then 0 else bytes[0] + 256 * FromLittleEndian(bytes[1..])
  }

  function Power256(n: nat): (p: nat)
    ensures p > 0
  {
    if n == 0 then 1 else 256 * Power256(n - 1)
  }

  /** Values that fit survive being stored. */
  lemma {:induction false} StoredValue(value: nat, n: nat)
    requires value < Power256(n)
    ensures FromLittleEndian(ToLittleEndian(value, n)) == value
  {
    if n > 0 {
      StoredValue(value / 256, n - 1);
      assert ToLittleEndian(value, n)[1..] == ToLittleEndian(value / 256, n - 1);
    }
  }

  lemma LowByte(b: U8, rest: nat)
    ensures (b + 256 * rest) % 256 == b && (b + 256 * rest) / 256 == rest
  {
  }

  lemma StoreStep(b: U8, rest: nat, n: nat)
    requires 0 < n
    ensures ToLittleEndian(b + 256 * rest, n) == [b] + ToLittleEndian(rest, n - 1)
  {
    LowByte(b, rest);
  }

  /** Loaded bytes are the ones that the loaded value stores. */
  lemma {:induction false} LoadedBytes(bytes: seq<U8>)
    ensures FromLittleEndian(bytes) < Power256(|bytes|)
    ensures ToLittleEndian(FromLittleEndian(bytes), |bytes|) == bytes
  {
    if bytes != [] {
      LoadedBytes(bytes[1..]);
      var rest := FromLittleEndian(bytes[1..]);
      assert FromLittleEndian(bytes) == bytes[0] + 256 * rest;
      hide FromLittleEndian, ToLittleEndian;
      StoreStep(bytes[0], rest, |bytes|);
    }
  }
}
