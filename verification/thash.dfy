/**
 * The SHA-2 "robust" tweakable hash of SPHINCS+: the input blocks are masked
 * with an MGF1 stream keyed by the public seed and the address, and the
 * masked input is hashed behind the address, resuming a state that has
 * already absorbed the public seed.  MGF1 (appendix B.2.1 of RFC 8017) and the
 * SHA-256/SHA-512 finalize calls are outside this model: they are opaque
 * function values whose only known property is their output length.
 */
module Thash {
  import opened Params
  import opened Address
  import opened Bytes

  /** SPX_SHA256_OUTPUT_BYTES */
  const Sha256OutputBytes: nat := 32

  /** SPX_SHA512_OUTPUT_BYTES */
  const Sha512OutputBytes: nat := 64

  /** `mgf1_256` / `mgf1_512`: (seed, length) to a mask of exactly that length. */
  type Mgf1 = f: (seq<bv8>, nat) -> seq<bv8> | forall seed, len :: |f(seed, len)| == len
    witness (seed: seq<bv8>, len: nat) => seq(len, _ => 0 as bv8)

  /** `sha256_inc_finalize`: (copy of a seeded state, message) to a 32-byte digest. */
  type Finalize256 = f: (seq<bv8>, seq<bv8>) -> seq<bv8> | forall state, msg :: |f(state, msg)| == Sha256OutputBytes
    witness (state: seq<bv8>, msg: seq<bv8>) => seq(32, _ => 0 as bv8)

  /** `sha512_inc_finalize`: (copy of a seeded state, message) to a 64-byte digest. */
  type Finalize512 = f: (seq<bv8>, seq<bv8>) -> seq<bv8> | forall state, msg :: |f(state, msg)| == Sha512OutputBytes
    witness (state: seq<bv8>, msg: seq<bv8>) => seq(64, _ => 0 as bv8)

  /** The hash capabilities the tweakable hash consumes. */
  datatype Sha2 = Sha2(
    mgf1Sha256: Mgf1,
    mgf1Sha512: Mgf1,
    finalizeSha256: Finalize256,
    finalizeSha512: Finalize512)

  /**
   * `SpxCtx`: the public seed and the incremental-hash states that have
   * absorbed it (40 bytes for SHA-256; 72 bytes for SHA-512, present only in
   * builds with `SPX_SHA512`).
   */
  datatype Ctx = Ctx(pubSeed: seq<bv8>, stateSeeded: seq<bv8>, stateSeeded512: seq<bv8>) {
    predicate Valid(p: Params) {
      && |pubSeed| == p.n
      && |stateSeeded| == 40
      && (p.sha512 ==> |stateSeeded512| == 72)
    }
  }

  /** Byte-wise exclusive or of two equally long strings. */
  function XorBytes(x: seq<bv8>, y: seq<bv8>): (r: seq<bv8>)
    requires |x| == |y|
    ensures |r| == |x|
    ensures forall i :: 0 <= i < |x| ==> r[i] ^ y[i] == x[i]
  {
    seq(|x|, i requires 0 <= i < |x| => x[i] ^ y[i])
  }

  /** Masking twice with the same mask gives the input back. */
  lemma XorBytesInvolution(x: seq<bv8>, mask: seq<bv8>)
    requires |x| == |mask|
    ensures XorBytes(XorBytes(x, mask), mask) == x
  {
    var once := XorBytes(x, mask);
    var twice := XorBytes(once, mask);
    forall i | 0 <= i < |x| ensures twice[i] == x[i] {
      assert once[i] == x[i] ^ mask[i];
    }
  }

  /** The hashed address: the first `SPX_SHA256_ADDR_BYTES` bytes of the byte view. */
  function AddrPrefix(p: Params, addr: Adrs): (r: seq<bv8>)
    requires p.Valid()
    ensures |r| == p.sha256AddrBytes
    ensures forall i :: 0 <= i < |r| ==> r[i] == WordToBytes(addr[i / 4])[i % 4]
  {
    AddressToBytes(addr)[..p.sha256AddrBytes]
  }

  /**
   * The message the robust tweakable hash finalizes:
   * `ADRSc ‖ (M xor MGF1(PK.seed ‖ ADRSc, |M|))`.
   */
  function RobustMessage(mgf1: Mgf1, pkSeed: seq<bv8>, adrsc: seq<bv8>, m: seq<bv8>): seq<bv8> {
    adrsc + XorBytes(m, mgf1(pkSeed + adrsc, |m|))
  }

  /**
   * The finalized message starts with the address, and masking its tail
   * once more with the same MGF1 stream gives the input back, so the message
   * determines the input.
   */
  lemma RobustMessageUnmask(mgf1: Mgf1, pkSeed: seq<bv8>, adrsc: seq<bv8>, m: seq<bv8>)
    ensures var msg := RobustMessage(mgf1, pkSeed, adrsc, m);
      && |msg| == |adrsc| + |m|
      && msg[..|adrsc|] == adrsc
      && XorBytes(msg[|adrsc|..], mgf1(pkSeed + adrsc, |m|)) == m
  {
    var mask := mgf1(pkSeed + adrsc, |m|);
    var msg := RobustMessage(mgf1, pkSeed, adrsc, m);
    assert msg[|adrsc|..] == XorBytes(m, mask);
    XorBytesInvolution(m, mask);
  }

  /**
   * The robust tweakable hash as SPHINCS+ defines it, for one hash width:
   * finalize the robust message from the state that has absorbed the seed.
   */
  function RobustHash(mgf1: Mgf1, finalize: (seq<bv8>, seq<bv8>) -> seq<bv8>,
                      seeded: seq<bv8>, pkSeed: seq<bv8>, adrsc: seq<bv8>, m: seq<bv8>): seq<bv8>
  {
    finalize(seeded, RobustMessage(mgf1, pkSeed, adrsc, m))
  }

  /**
   * The masking loop: bytes `[at, at + len)` of `buf` become
   * `input[i] xor mask[i]`; every other byte of `buf` is kept.
   */
  method XorInto(buf: seq<bv8>, at: nat, input: seq<bv8>, mask: seq<bv8>, len: nat)
    returns (r: seq<bv8>)
    requires at + len <= |buf| && len <= |input| && |mask| == len
    ensures |r| == |buf|
    ensures r[..at] == buf[..at]
    ensures r[at .. at + len] == XorBytes(input[..len], mask)
    ensures r[at + len..] == buf[at + len..]
  {
    r := buf;
    var i := 0;
    while i < len
      invariant 0 <= i <= len
      invariant |r| == |buf|
      invariant r[..at] == buf[..at]
      invariant forall j :: 0 <= j < i ==> r[at + j] == input[j] ^ mask[j]
      invariant r[at + i..] == buf[at + i..]
    {
      r := r[at + i := input[i] ^ mask[i]];
      i := i + 1;
    }
    var xs := r[at .. at + len];
    assert forall j :: 0 <= j < len ==> xs[j] == r[at + j];
  }

  /**
   * A zeroed buffer of `bufLen` bytes with the public seed copied to its
   * head and the address prefix right after it.
   */
  function SeededBuffer(pubSeed: seq<bv8>, adrsc: seq<bv8>, bufLen: nat): (buf: seq<bv8>)
    requires |pubSeed| + |adrsc| <= bufLen
    ensures |buf| == bufLen
    ensures buf[..|pubSeed| + |adrsc|] == pubSeed + adrsc
    ensures buf[|pubSeed| .. |pubSeed| + |adrsc|] == adrsc
  {
    var zeros := seq(bufLen, _ => 0 as bv8);
    var buf := pubSeed + adrsc + zeros[|pubSeed| + |adrsc|..];
    assert buf[|pubSeed| .. |pubSeed| + |adrsc|] == adrsc;
    buf
  }

  /** Two adjacent slices of a buffer make up the slice that spans both. */
  lemma AdjacentSlices(buf: seq<bv8>, lo: nat, mid: nat, hi: nat)
    requires lo <= mid <= hi <= |buf|
    ensures buf[lo .. hi] == buf[lo .. mid] + buf[mid .. hi]
  {
  }

  /**
   * The buffer work shared by both hash widths: put the public seed and the
   * address prefix `adrsc` at the head of a zeroed buffer of `bufLen` bytes,
   * draw the `inblocks * SPX_N`-byte mask from MGF1 over that head, write
   * the masked input after the address prefix, and return the part of the
   * buffer that is finalized.  That part is the robust message.
   */
  method MaskedMessage(p: Params, mgf1: Mgf1, pubSeed: seq<bv8>, adrsc: seq<bv8>,
                       input: seq<bv8>, inblocks: nat, bufLen: nat)
    returns (msg: seq<bv8>)
    requires p.Valid() && |pubSeed| == p.n && |adrsc| == p.sha256AddrBytes
    requires |input| >= inblocks * p.n
    requires bufLen >= p.n + p.sha256AddrBytes + inblocks * p.n
    ensures |msg| == p.sha256AddrBytes + inblocks * p.n
    ensures msg == RobustMessage(mgf1, pubSeed, adrsc, input[..inblocks * p.n])
  {
    var n, a, len := p.n, p.sha256AddrBytes, inblocks * p.n;
    var buf := SeededBuffer(pubSeed, adrsc, bufLen);
    var bitmask := mgf1(buf[..n + a], len);
    var masked := XorInto(buf, n + a, input, bitmask, len);
    assert masked[n .. n + a] == adrsc by {
      assert masked[..n + a] == buf[..n + a];
      assert masked[n .. n + a] == masked[..n + a][n..];
      assert buf[n .. n + a] == buf[..n + a][n..];
    }
    AdjacentSlices(masked, n, n + a, n + a + len);
    msg := masked[n .. n + a + len];
    assert buf[..n + a] == pubSeed + adrsc;
    assert |input[..len]| == len;
    assert msg == adrsc + XorBytes(input[..len], bitmask);
  }

  /**
   * `thash` without `SPX_SHA512` (or with one input block): the first
   * `SPX_N` bytes of `out` become the first `SPX_N` bytes of the SHA-256
   * robust hash of `input[..inblocks * SPX_N]`; the rest of `out` is kept.
   */
  method Thash256(p: Params, h: Sha2, out: seq<bv8>, input: seq<bv8>, inblocks: nat, ctx: Ctx, addr: Adrs)
    returns (r: seq<bv8>)
    requires p.Valid() && ctx.Valid(p)
    requires |input| >= inblocks * p.n && |out| >= p.n
    ensures |r| == |out|
    ensures r[..p.n] == RobustHash(h.mgf1Sha256, h.finalizeSha256, ctx.stateSeeded,
                                   ctx.pubSeed, AddrPrefix(p, addr), input[..inblocks * p.n])[..p.n]
    ensures r[p.n..] == out[p.n..]
  {
    var state := ctx.stateSeeded;
    var msg := MaskedMessage(p, h.mgf1Sha256, ctx.pubSeed, AddrPrefix(p, addr), input, inblocks,
                             p.n + Sha256OutputBytes + inblocks * p.n);
    var outbuf := h.finalizeSha256(state, msg);
    r := outbuf[..p.n] + out[p.n..];
  }

  /**
   * `thash_512`: as `Thash256` with SHA-512's MGF1, seeded state and
   * finalize, still hashing the `SPX_SHA256_ADDR_BYTES`-byte address prefix.
   */
  method Thash512(p: Params, h: Sha2, out: seq<bv8>, input: seq<bv8>, inblocks: nat, ctx: Ctx, addr: Adrs)
    returns (r: seq<bv8>)
    requires p.Valid() && p.sha512 && ctx.Valid(p)
    requires |input| >= inblocks * p.n && |out| >= p.n
    ensures |r| == |out|
    ensures r[..p.n] == RobustHash(h.mgf1Sha512, h.finalizeSha512, ctx.stateSeeded512,
                                   ctx.pubSeed, AddrPrefix(p, addr), input[..inblocks * p.n])[..p.n]
    ensures r[p.n..] == out[p.n..]
  {
    var state := ctx.stateSeeded512;
    var msg := MaskedMessage(p, h.mgf1Sha512, ctx.pubSeed, AddrPrefix(p, addr), input, inblocks,
                             p.n + p.sha256AddrBytes + inblocks * p.n);
    var outbuf := h.finalizeSha512(state, msg);
    r := outbuf[..p.n] + out[p.n..];
  }

  /**
   * `thash`: the SHA-512 path exactly when the build enables it and there is
   * more than one input block; the SHA-256 path otherwise.
   */
  method Thash(p: Params, h: Sha2, out: seq<bv8>, input: seq<bv8>, inblocks: nat, ctx: Ctx, addr: Adrs)
    returns (r: seq<bv8>)
    requires p.Valid() && ctx.Valid(p)
    requires |input| >= inblocks * p.n && |out| >= p.n
    ensures |r| == |out|
    ensures r[p.n..] == out[p.n..]
    ensures p.sha512 && inblocks > 1 ==>
      r[..p.n] == RobustHash(h.mgf1Sha512, h.finalizeSha512, ctx.stateSeeded512,
                             ctx.pubSeed, AddrPrefix(p, addr), input[..inblocks * p.n])[..p.n]
    ensures !(p.sha512 && inblocks > 1) ==>
      r[..p.n] == RobustHash(h.mgf1Sha256, h.finalizeSha256, ctx.stateSeeded,
                             ctx.pubSeed, AddrPrefix(p, addr), input[..inblocks * p.n])[..p.n]
  {
    if p.sha512 && inblocks > 1 {
      r := Thash512(p, h, out, input, inblocks, ctx, addr);
      return;
    }
    r := Thash256(p, h, out, input, inblocks, ctx, addr);
  }
}
