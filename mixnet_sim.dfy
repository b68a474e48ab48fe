/** `mixnet_sim.rs`: the path simulator. Sample `i` has `2 + i mod 5`
    hops and a latency computed from `i` and the base latency in `u64`
    arithmetic, which a release build wraps modulo 2^64. */
module MixnetSim {
  import opened Bytes

  datatype PathSample = PathSample(pathId: nat, hops: nat, latencyMs: uint64)

  const U64Modulus: nat := 0x1_0000_0000_0000_0000

  /** Rust `u64` addition and multiplication, wrapping. */
  function Wrap64(n: nat): (v: uint64)
    ensures v as int == n % U64Modulus
  {
    (n % U64Modulus) as uint64
  }

  /** The jitter term `i as u64 * 13 % 100`. */
  function Jitter(i: nat): (j: nat)
    ensures j < 100
  {
    (Wrap64(i) as int * 13 % U64Modulus) % 100
  }

  /** While `13 * i` fits in 64 bits nothing wraps: the jitter is `13 * i`
      modulo 100. */
  lemma JitterSmall(i: nat)
    requires 13 * i < U64Modulus
    ensures Jitter(i) == (13 * i) % 100
  {
    assert Wrap64(i) as int == i;
  }

  /** The sample the loop pushes at index `i`. */
  function Sample(i: nat, baseMs: uint64): (s: PathSample)
    ensures s.pathId == i
    ensures 2 <= s.hops <= 6
  {
    var hops := 2 + i % 5;
    var latency := Wrap64(Wrap64(baseMs as int + Jitter(i)) as int + Wrap64(hops * 5) as int);
    PathSample(i, hops, latency)
  }

  /** `simulate_paths`: one sample per index below `n`, in index order. */
  method SimulatePaths(n: nat, baseMs: uint64) returns (out: seq<PathSample>)
    ensures |out| == n
    ensures forall i :: 0 <= i < n ==> out[i] == Sample(i, baseMs)
  {
    out := [];
    for i := 0 to n
      invariant |out| == i
      invariant forall j :: 0 <= j < i ==> out[j] == Sample(j, baseMs)
    {
      var hops := 2 + i % 5;
      var jitter := (Wrap64(i) as int * 13 % U64Modulus) % 100;
      var latency := Wrap64(Wrap64(baseMs as int + jitter) as int + Wrap64(hops * 5) as int);
      out := out + [PathSample(i, hops, latency)];
    }
  }

  /** The hop count cycles through 2..6, and when the base latency leaves
      room for the largest term nothing wraps: the latency is the base plus
      a jitter below 100 plus five per hop, so it lies between base + 10
      and base + 129. */
  lemma SampleBounds(i: nat, baseMs: uint64)
    requires baseMs as int + 129 < U64Modulus
    ensures Sample(i, baseMs).hops == 2 + i % 5
    ensures Sample(i, baseMs).latencyMs as int == baseMs as int + Jitter(i) + 5 * Sample(i, baseMs).hops
    ensures baseMs as int + 10 <= Sample(i, baseMs).latencyMs as int <= baseMs as int + 129
  {
    var h := 2 + i % 5;
    assert Wrap64(baseMs as int + Jitter(i)) as int == baseMs as int + Jitter(i);
    assert Wrap64(h * 5) as int == h * 5;
  }
}
