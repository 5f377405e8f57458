/**
 * The compile-time parameter set of a SPHINCS+ build: the `SPX_*` constants
 * that the address encoder and the tweakable hash read.  The concrete values
 * live in `params.rs`, which is not part of this model; here they are
 * symbolic, constrained by a well-formedness predicate, and two instances
 * with the SHA-2 ("compressed") address layout show that the predicate can
 * be met.
 */
module Params {

  datatype Params = Params(
    n: nat,                 // SPX_N: hash output length in bytes
    fullHeight: nat,        // SPX_FULL_HEIGHT: height of the hypertree
    d: nat,                 // SPX_D: number of hypertree layers
    sha512: bool,           // SPX_SHA512: multi-block hashes use SHA-512
    sha256AddrBytes: nat,   // SPX_SHA256_ADDR_BYTES: hashed prefix of the address
    offsetLayer: nat,       // SPX_OFFSET_LAYER
    offsetTree: nat,        // SPX_OFFSET_TREE (8-byte field)
    offsetType: nat,        // SPX_OFFSET_TYPE
    offsetKpAddr2: nat,     // SPX_OFFSET_KP_ADDR2 (high keypair byte)
    offsetKpAddr1: nat,     // SPX_OFFSET_KP_ADDR1 (low keypair byte)
    offsetChainAddr: nat,   // SPX_OFFSET_CHAIN_ADDR
    offsetHashAddr: nat,    // SPX_OFFSET_HASH_ADDR
    offsetTreeHgt: nat,     // SPX_OFFSET_TREE_HGT
    offsetTreeIndex: nat)   // SPX_OFFSET_TREE_INDEX (4-byte field)
  {
    /**
     * Well-formed parameter set.  Every field lies inside the 32-byte
     * address, in the order of section 4.2 of FIPS 205: layer, then tree,
     * then type, then the keypair bytes, then the type-specific words
     * (chain/hash or tree height/tree index).  The type-specific fields may
     * share bytes with each other (the SHA-2 layout puts the chain address
     * and the tree height at the same byte), since a given address type only
     * uses one pair of them.  The hash output fits in a SHA-256 digest.
     */
    predicate Valid() {
      && 0 < n <= 32
      && d > 0
      && sha256AddrBytes <= 32
      && offsetLayer < offsetTree
      && offsetTree + 8 <= offsetType
      && offsetType < offsetKpAddr2
      && offsetType < offsetKpAddr1
      && offsetKpAddr1 != offsetKpAddr2
      && offsetKpAddr1 < offsetChainAddr && offsetKpAddr2 < offsetChainAddr
      && offsetKpAddr1 < offsetHashAddr && offsetKpAddr2 < offsetHashAddr
      && offsetKpAddr1 < offsetTreeHgt && offsetKpAddr2 < offsetTreeHgt
      && offsetKpAddr1 < offsetTreeIndex && offsetKpAddr2 < offsetTreeIndex
      && offsetChainAddr < 32
      && offsetHashAddr < 32
      && offsetTreeHgt < 32
      && offsetTreeIndex + 4 <= 32
    }

    /**
     * More than 256 one-time keypairs sit under one Merkle tree, so the
     * keypair index takes two bytes.  The code tests `SPX_FULL_HEIGHT/SPX_D > 8`
     * with an integer division; `WideKeypairIsDivision` shows this linear
     * form is the same test.
     */
    predicate WideKeypair()
      requires d > 0
    {
      fullHeight >= 9 * d
    }
  }

  /** `SPX_FULL_HEIGHT/SPX_D > 8` exactly when the full height is at least nine layers' worth. */
  lemma WideKeypairIsDivision(p: Params)
    requires p.d > 0
    ensures p.WideKeypair() <==> p.fullHeight / p.d > 8
  {
    var q, r := p.fullHeight / p.d, p.fullHeight % p.d;
    assert p.fullHeight == q * p.d + r && 0 <= r < p.d;
    if q > 8 {
      assert q * p.d >= 9 * p.d;
    } else {
      assert q * p.d <= 8 * p.d;
    }
  }

  /** SHA-2 address layout with SPHINCS+-SHA2-128s geometry (63 / 7 = 9 > 8). */
  const Sha2_128s: Params := Params(16, 63, 7, false, 22, 0, 1, 9, 12, 13, 17, 21, 17, 18)

  /** SHA-2 address layout with SPHINCS+-SHA2-256f geometry (68 / 17 = 4). */
  const Sha2_256f: Params := Params(32, 68, 17, true, 22, 0, 1, 9, 12, 13, 17, 21, 17, 18)

  lemma Sha2InstancesValid()
    ensures Sha2_128s.Valid() && Sha2_128s.WideKeypair()
    ensures Sha2_256f.Valid() && !Sha2_256f.WideKeypair() && Sha2_256f.sha512
  {
  }
}
