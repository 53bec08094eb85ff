/** Identifier generation: a 64-bit id built from eight random bytes (generateRandomId). */
module Ids {
  import opened Types

  function Pow256(k: nat): (p: nat)
    ensures p >= 1
  {
    if k == 0 then 1 else 256 * Pow256(k - 1)
  }

  /** The value of a byte string read most significant byte first. */
  function BigEndian(bs: seq<byte>): (v: nat)
    ensures v < Pow256(|bs|)
  {
    if |bs| == 0 then 0 else BigEndian(bs[..|bs| - 1]) * 256 + bs[|bs| - 1]
  }

  /** The n low bytes of v, most significant first: the inverse of BigEndian. */
  function BytesOf(v: nat, n: nat): (bs: seq<byte>)
    ensures |bs| == n
  {
    if n == 0 then [] else BytesOf(v / 256, n - 1) + [v % 256]
  }

  lemma {:induction false} BigEndianRoundTrip(bs: seq<byte>)
    ensures BytesOf(BigEndian(bs), |bs|) == bs
  {
    if bs != [] {
      var init := bs[..|bs| - 1];
      BigEndianRoundTrip(init);
      assert bs == init + [bs[|bs| - 1]];
    }
  }

  lemma Pow256Is64Bit()
    ensures Pow256(8) == TWO_TO_THE_64
  {
  }

  /** generateRandomId: `id = (id << 8) | byte` for eight bytes. As id < 2^56 before each step,
      the shift does not wrap and the or-ed byte lands in the cleared low bits, so the step is
      id * 256 + byte. */
  method GenerateRandomId(random: seq<byte>) returns (id: u64)
    requires |random| == 8
    ensures id == IdOf(random)
  {
    var acc: nat := 0;
    var i := 0;
    while i < 8
      invariant 0 <= i <= 8
      invariant acc == BigEndian(random[..i])
    {
      assert random[..i + 1][..i] == random[..i];
      acc := acc * 256 + random[i];
      i := i + 1;
    }
    assert random[..8] == random;
    Pow256Is64Bit();
    id := acc;
  }

  /** The id generateRandomId returns on the bytes `random`: it gives the bytes back. */
  function IdOf(random: seq<byte>): (id: u64)
    requires |random| == 8
    ensures BytesOf(id, 8) == random
  {
    Pow256Is64Bit();
    BigEndianRoundTrip(random);
    BigEndian(random)
  }

  /** The two generateRandomId calls of begin and startNewTrace (lines 506-507, 525-526), the
      high half of the trace id first. */
  function TraceIdOf(randomHi: seq<byte>, randomLo: seq<byte>): (t: TraceId)
    requires |randomHi| == 8 && |randomLo| == 8
    ensures BytesOf(t.hi, 8) == randomHi && BytesOf(t.lo, 8) == randomLo
  {
    TraceId(IdOf(randomHi), IdOf(randomLo))
  }

  method NewTraceId(randomHi: seq<byte>, randomLo: seq<byte>) returns (t: TraceId)
    requires |randomHi| == 8 && |randomLo| == 8
    ensures t == TraceIdOf(randomHi, randomLo)
  {
    var hi := GenerateRandomId(randomHi);
    var lo := GenerateRandomId(randomLo);
    t := TraceId(hi, lo);
  }
}
