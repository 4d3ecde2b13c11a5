/** Unsigned numbers as bytes in memory, lowest first. */
module Binary {
  import opened Keys

  function ToBytes(u: nat, n: nat): (b: Bytes)
    ensures |b| == n
  {
    if n == 0 then [] else [u % 256] + ToBytes(u / 256, n - 1)
  }

  function FromBytes(b: Bytes): nat
  {
    if b == [] then 0 else b[0] + 256 * FromBytes(b[1..])
  }

  function Power(n: nat): nat
  {
    if n == 0 then 1 else 256 * Power(n - 1)
  }

  lemma {:induction false} FromToBytes(u: nat, n: nat)
    requires u < Power(n)
    ensures FromBytes(ToBytes(u, n)) == u
  {
    if n > 0 {
      FromToBytes(u / 256, n - 1);
    }
  }

  lemma Powers()
    ensures Power(4) == 0x1_0000_0000 && Power(8) == 0x1_0000_0000_0000_0000
  {
    assert Power(2) == 65536 && Power(6) == 65536 * Power(4);
  }

  /** Different numbers have different bytes. */
  lemma BytesDiffer(u: nat, v: nat, n: nat)
    requires u < Power(n) && v < Power(n)
    ensures ToBytes(u, n) == ToBytes(v, n) <==> u == v
  {
    FromToBytes(u, n);
    FromToBytes(v, n);
  }
}
