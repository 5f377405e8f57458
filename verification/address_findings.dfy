/**
 * Where the word-level setters and copies of `src/address.rs` do not keep the
 * field isolation that the address layout promises (every setter changes its
 * own field only; every copy copies exactly the fields it names), and the
 * byte-exact definitions that do.
 *
 * For each defect there is a lemma about the definition as written, a
 * concrete input on the SHA-2 address layout that exhibits it, and a
 * corrected definition with the intended property proved.
 */
module AddressFindings {
  import opened Bytes
  import opened Params
  import opened Address

  /** The all-zero address. */
  const ZeroAdrs: Adrs := [0, 0, 0, 0, 0, 0, 0, 0]

  /*
   * Finding 1: `set_layer_addr` (and likewise `set_hash_addr`) assigns the
   * whole word that holds its one-byte field, so the other three bytes of
   * that word are overwritten with the upper bytes of the value, which are
   * zero for any layer below 256.
   */

  /**
   * A value below 256 written with `SetAddr` zeroes every other byte of its
   * word, whatever the address held there before.
   */
  lemma SetAddrSmallClobbers(a: Adrs, offset: nat, value: bv32, i: nat)
    requires offset < 32 && value < 256
    requires i / 4 == offset / 4 && i != offset
    ensures AddressToBytes(SetAddr(a, offset, value))[i] == 0
  {
    var w, k, j := offset / 4, offset % 4, i % 4;
    assert i == 4 * w + j && j != k;
    ShiftedWordByte(SetAddr(a, offset, value), w, value, k, j);
    SmallValueOtherBytes(value, k, j);
  }

  /** Shifted up by `k` bytes, a value below 256 has a zero byte everywhere but at `k`. */
  lemma SmallValueOtherBytes(value: bv32, k: nat, j: nat)
    requires value < 256 && k < 4 && j < 4 && j != k
    ensures (if j < k then 0 else WordToBytes(value)[j - k]) == 0
  {
    SmallWordBytes(value);
  }

  /** As written: `SetLayerAddr` zeroes the bytes that share the layer's word. */
  lemma SetLayerAddrClobbers(p: Params, a: Adrs, layer: bv32, i: nat)
    requires p.Valid() && layer < 256
    requires i / 4 == p.offsetLayer / 4 && i != p.offsetLayer
    ensures AddressToBytes(SetLayerAddr(p, a, layer))[i] == 0
  {
    SetAddrSmallClobbers(a, p.offsetLayer, layer, i);
  }

  /**
   * On the SHA-2 layout the layer is byte 0 and the tree address starts at
   * byte 1, in the same word: setting layer 1 on an address whose tree bytes
   * 1 and 2 are 2 and 3 wipes them.
   */
  lemma SetLayerAddrLosesTree()
    ensures var a: Adrs := [0x0003_0200, 0, 0, 0, 0, 0, 0, 0];
      && AddressToBytes(a)[1] == 2
      && AddressToBytes(a)[2] == 3
      && AddressToBytes(SetLayerAddr(Sha2_128s, a, 1))[1] == 0
      && AddressToBytes(SetLayerAddr(Sha2_128s, a, 1))[2] == 0
  {
    var a: Adrs := [0x0003_0200, 0, 0, 0, 0, 0, 0, 0];
    Sha2InstancesValid();
    AddressByteAt(a, 0, 1);
    AddressByteAt(a, 0, 2);
    SetLayerAddrClobbers(Sha2_128s, a, 1, 1);
    SetLayerAddrClobbers(Sha2_128s, a, 1, 2);
  }

  /** Corrected: byte `SPX_OFFSET_LAYER` becomes `layer mod 256`; nothing else changes. */
  function SetLayerAddrByte(p: Params, a: Adrs, layer: bv32): (r: Adrs)
    requires p.Valid()
    ensures AddressToBytes(r)[p.offsetLayer] == Low8(layer)
    ensures AgreeOutside(a, r, p.offsetLayer, p.offsetLayer + 1)
  {
    WriteBytes(a, p.offsetLayer, [Low8(layer)])
  }

  /** Corrected `set_layer_addr` keeps the tree field: the defect of `SetLayerAddrLosesTree` is gone. */
  lemma SetLayerAddrByteKeepsTree(p: Params, a: Adrs, layer: bv32)
    requires p.Valid()
    ensures AddressToBytes(SetLayerAddrByte(p, a, layer))[p.offsetTree .. p.offsetTree + 8]
         == AddressToBytes(a)[p.offsetTree .. p.offsetTree + 8]
  {
    KeptTree(p, a, SetLayerAddrByte(p, a, layer));
  }

  /** An address that differs from `a` at most in the layer byte has `a`'s tree field. */
  lemma KeptTree(p: Params, a: Adrs, r: Adrs)
    requires p.Valid() && AgreeOutside(a, r, p.offsetLayer, p.offsetLayer + 1)
    ensures AddressToBytes(r)[p.offsetTree .. p.offsetTree + 8] == AddressToBytes(a)[p.offsetTree .. p.offsetTree + 8]
  {
    forall i | p.offsetTree <= i < p.offsetTree + 8 ensures AddressToBytes(r)[i] == AddressToBytes(a)[i] {
      assert p.offsetLayer < i;
    }
  }

  /** As written: `SetHashAddr` zeroes the bytes that share the hash address's word. */
  lemma SetHashAddrClobbers(p: Params, a: Adrs, hash: bv32, i: nat)
    requires p.Valid() && hash < 256
    requires i / 4 == p.offsetHashAddr / 4 && i != p.offsetHashAddr
    ensures AddressToBytes(SetHashAddr(p, a, hash))[i] == 0
  {
    SetAddrSmallClobbers(a, p.offsetHashAddr, hash, i);
  }

  /**
   * On the SHA-2 layout the hash address is byte 21, in the word of bytes
   * 20 to 23, which also holds the third byte of the tree index (`SetTreeIndex`
   * with 0x100 puts 1 there): setting hash address 0 wipes it.
   */
  lemma SetHashAddrLosesTreeIndex()
    ensures var a: Adrs := [0, 0, 0, 0, 0, 0x0000_0001, 0, 0];
      && AddressToBytes(a)[20] == 1
      && AddressToBytes(SetHashAddr(Sha2_128s, a, 0))[20] == 0
  {
    var a: Adrs := [0, 0, 0, 0, 0, 0x0000_0001, 0, 0];
    Sha2InstancesValid();
    AddressByteAt(a, 5, 0);
    SetHashAddrClobbers(Sha2_128s, a, 0, 20);
  }

  /** Corrected: byte `SPX_OFFSET_HASH_ADDR` becomes `hash mod 256`; nothing else changes. */
  function SetHashAddrByte(p: Params, a: Adrs, hash: bv32): (r: Adrs)
    requires p.Valid()
    ensures AddressToBytes(r)[p.offsetHashAddr] == Low8(hash)
    ensures AgreeOutside(a, r, p.offsetHashAddr, p.offsetHashAddr + 1)
  {
    WriteBytes(a, p.offsetHashAddr, [Low8(hash)])
  }

  /*
   * Finding 2: `copy_keypair_addr` assigns the whole word of
   * `SPX_OFFSET_KP_ADDR1` from that byte on, so every byte below it in the
   * word becomes zero. With a two-byte keypair field whose bytes share a
   * word, high byte first, that is the high byte just copied; with a
   * one-byte field, it is the unused byte below the keypair byte.
   */

  /**
   * As written: the bytes of the low keypair byte's word that lie below it
   * are zero in the copy, whatever `out` or `input` held there.
   */
  lemma CopyKeypairAddrZeroesBelowLow(p: Params, out: Adrs, input: Adrs, i: nat)
    requires p.Valid()
    requires i / 4 == p.offsetKpAddr1 / 4 && i < p.offsetKpAddr1
    ensures AddressToBytes(CopyKeypairAddr(p, out, input))[i] == 0
  {
    MovedWordBelow(CopyKeypairAddr(p, out, input), input, p.offsetKpAddr1, i);
  }

  /** In a word `SetAddr` wrote with what `GetAddr` read at `offset`, the bytes below `offset` are zero. */
  lemma MovedWordBelow(r: Adrs, input: Adrs, offset: nat, i: nat)
    requires offset < 32 && i / 4 == offset / 4 && i < offset
    requires r[offset / 4] == ShiftLeftBytes(GetAddr(input, offset), offset % 4)
    ensures AddressToBytes(r)[i] == 0
  {
    BelowInWord(i, offset);
    ShiftedWordByte(r, offset / 4, GetAddr(input, offset), offset % 4, i % 4);
  }

  /** A byte below `offset` in the same word sits at a lower position of that word. */
  lemma BelowInWord(i: nat, offset: nat)
    requires i / 4 == offset / 4 && i < offset
    ensures i == 4 * (offset / 4) + i % 4 && i % 4 < offset % 4
  {
  }

  /** As written: the high keypair byte of the copy is zero, whatever `input` holds there. */
  lemma CopyKeypairAddrDropsHigh(p: Params, out: Adrs, input: Adrs)
    requires p.Valid() && p.WideKeypair()
    requires p.offsetKpAddr2 / 4 == p.offsetKpAddr1 / 4 && p.offsetKpAddr2 < p.offsetKpAddr1
    ensures AddressToBytes(CopyKeypairAddr(p, out, input))[p.offsetKpAddr2] == 0
  {
    CopyKeypairAddrZeroesBelowLow(p, out, input, p.offsetKpAddr2);
  }

  /**
   * On the SHA-2 layout with SPHINCS+-128s geometry the keypair bytes are 12
   * (high) and 13 (low), in one word: copying keypair 0x0102 gives 0x0002.
   */
  lemma CopyKeypairAddrLosesHigh()
    ensures var input: Adrs := [0, 0, 0, 0x0000_0201, 0, 0, 0, 0];
      && AddressToBytes(input)[12] == 1
      && AddressToBytes(input)[13] == 2
      && AddressToBytes(CopyKeypairAddr(Sha2_128s, ZeroAdrs, input))[12] == 0
  {
    var input: Adrs := [0, 0, 0, 0x0000_0201, 0, 0, 0, 0];
    Sha2InstancesValid();
    AddressByteAt(input, 3, 0);
    AddressByteAt(input, 3, 1);
    CopyKeypairAddrDropsHigh(Sha2_128s, ZeroAdrs, input);
  }

  /**
   * With a one-byte keypair field the same word assignment clears the
   * bytes below `SPX_OFFSET_KP_ADDR1`: on the SHA-2 layout with
   * SPHINCS+-256f geometry, byte 12 of `out` (7 here) becomes 0, although
   * the copy names only the layer, tree and keypair fields.
   */
  lemma CopyKeypairAddrClearsByte12()
    ensures var out: Adrs := [0, 0, 0, 0x0000_0007, 0, 0, 0, 0];
      && AddressToBytes(out)[12] == 7
      && AddressToBytes(CopyKeypairAddr(Sha2_256f, out, ZeroAdrs))[12] == 0
  {
    var out: Adrs := [0, 0, 0, 0x0000_0007, 0, 0, 0, 0];
    Sha2InstancesValid();
    AddressByteAt(out, 3, 0);
    CopyKeypairAddrZeroesBelowLow(Sha2_256f, out, ZeroAdrs, 12);
  }

  /*
   * Finding 3: `copy_keypair_addr` copies `(SPX_OFFSET_TREE + 8) / 4` whole
   * words, which rounds the `SPX_OFFSET_TREE + 8` bytes of layer and tree
   * down to a word boundary: when the tree field does not end on one, its
   * last bytes keep the destination's value.
   */

  /** As written: the last tree byte is `out`'s, unless a keypair byte shares its word. */
  lemma CopyKeypairAddrDropsTreeTail(p: Params, out: Adrs, input: Adrs)
    requires p.Valid() && (p.offsetTree + 8) % 4 != 0
    requires (p.offsetTree + 7) / 4 != p.offsetKpAddr1 / 4
    requires (p.offsetTree + 7) / 4 != p.offsetKpAddr2 / 4
    ensures AddressToBytes(CopyKeypairAddr(p, out, input))[p.offsetTree + 7]
         == AddressToBytes(out)[p.offsetTree + 7]
  {
    CopyKeypairAddrKeepsWord(p, out, input);
    SameWordSameByte(CopyKeypairAddr(p, out, input), out, p.offsetTree + 7);
  }

  lemma CopyKeypairAddrKeepsWord(p: Params, out: Adrs, input: Adrs)
    requires p.Valid() && (p.offsetTree + 8) % 4 != 0
    requires (p.offsetTree + 7) / 4 != p.offsetKpAddr1 / 4
    requires (p.offsetTree + 7) / 4 != p.offsetKpAddr2 / 4
    ensures CopyKeypairAddr(p, out, input)[(p.offsetTree + 7) / 4] == out[(p.offsetTree + 7) / 4]
  {
    assert (p.offsetTree + 8) / 4 == (p.offsetTree + 7) / 4;
  }

  /**
   * On the SHA-2 layout the tree field is bytes 1 to 8 and only words 0 and 1
   * (bytes 0 to 7) are copied: the least significant tree byte, 5 in
   * `input`, stays 0.
   */
  lemma CopyKeypairAddrLosesTreeTail()
    ensures var input: Adrs := [0, 0, 0x0000_0005, 0, 0, 0, 0, 0];
      && AddressToBytes(input)[8] == 5
      && AddressToBytes(CopyKeypairAddr(Sha2_128s, ZeroAdrs, input))[8] == 0
  {
    var input: Adrs := [0, 0, 0x0000_0005, 0, 0, 0, 0, 0];
    Sha2InstancesValid();
    AddressByteAt(input, 2, 0);
    AddressByteAt(ZeroAdrs, 2, 0);
    CopyKeypairAddrDropsTreeTail(Sha2_128s, ZeroAdrs, input);
  }

  /**
   * Corrected `copy_keypair_addr` (findings 2 and 3): the `SPX_OFFSET_TREE + 8`
   * bytes of layer and tree, then the keypair bytes (the high one only with
   * a two-byte field) come from `input`; every other byte stays `out`'s.
   */
  function CopyKeypairAddrByte(p: Params, out: Adrs, input: Adrs): (r: Adrs)
    requires p.Valid()
    ensures AddressToBytes(r)[..p.offsetTree + 8] == AddressToBytes(input)[..p.offsetTree + 8]
    ensures AddressToBytes(r)[p.offsetKpAddr1] == AddressToBytes(input)[p.offsetKpAddr1]
    ensures p.WideKeypair() ==> AddressToBytes(r)[p.offsetKpAddr2] == AddressToBytes(input)[p.offsetKpAddr2]
    ensures !p.WideKeypair() ==> AddressToBytes(r)[p.offsetKpAddr2] == AddressToBytes(out)[p.offsetKpAddr2]
    ensures forall i :: p.offsetTree + 8 <= i < 32 && i != p.offsetKpAddr1 && i != p.offsetKpAddr2 ==>
      AddressToBytes(r)[i] == AddressToBytes(out)[i]
  {
    BytesToAddress(KeypairCopyBytes(p, AddressToBytes(out), AddressToBytes(input)))
  }

  /** The byte view of the corrected copy: bytes `bi` where copied, `bo` elsewhere. */
  function KeypairCopyBytes(p: Params, bo: AdrsBytes, bi: AdrsBytes): (b: AdrsBytes)
    requires p.Valid()
    ensures b[..p.offsetTree + 8] == bi[..p.offsetTree + 8]
    ensures b[p.offsetKpAddr1] == bi[p.offsetKpAddr1]
    ensures p.WideKeypair() ==> b[p.offsetKpAddr2] == bi[p.offsetKpAddr2]
    ensures !p.WideKeypair() ==> b[p.offsetKpAddr2] == bo[p.offsetKpAddr2]
    ensures forall i :: p.offsetTree + 8 <= i < 32 && i != p.offsetKpAddr1 && i != p.offsetKpAddr2 ==> b[i] == bo[i]
  {
    var wide := p.WideKeypair();
    seq(32, i requires 0 <= i < 32 =>
      if i < p.offsetTree + 8 || i == p.offsetKpAddr1 || (wide && i == p.offsetKpAddr2) then bi[i] else bo[i])
  }

  /** The corrected copy carries the keypair index that `SetKeypairAddr` wrote, both bytes of it. */
  lemma CopyKeypairAddrByteCarriesKeypair(p: Params, out: Adrs, input: Adrs, keypair: bv32)
    requires p.Valid() && p.WideKeypair()
    ensures var r := CopyKeypairAddrByte(p, out, SetKeypairAddr(p, input, keypair));
      && AddressToBytes(r)[p.offsetKpAddr1] == Low8(keypair)
      && AddressToBytes(r)[p.offsetKpAddr2] == Low8(keypair >> 8)
  {
  }

  /*
   * Finding 4: `copy_subtree_addr` copies four whole words (16 bytes), more
   * than the `SPX_OFFSET_TREE + 8` bytes of layer and tree: when the type or
   * keypair bytes lie below byte 16, they are copied too.
   */

  /** As written: the type byte of the copy is `input`'s when it lies in the first four words. */
  lemma CopySubtreeAddrCopiesType(p: Params, out: Adrs, input: Adrs)
    requires p.Valid() && p.offsetType < 16
    ensures AddressToBytes(CopySubtreeAddr(out, input))[p.offsetType] == AddressToBytes(input)[p.offsetType]
  {
    CopySubtreeAddrBytes(p, out, input);
    assert AddressToBytes(CopySubtreeAddr(out, input))[..16][p.offsetType] == AddressToBytes(input)[..16][p.offsetType];
  }

  /** On the SHA-2 layout (type at byte 9) the copy takes `input`'s type 2 over `out`'s type 0. */
  lemma CopySubtreeAddrLeaksType()
    ensures var input: Adrs := [0, 0, 0x0000_0200, 0, 0, 0, 0, 0];
      && AddressToBytes(input)[9] == 2
      && AddressToBytes(ZeroAdrs)[9] == 0
      && AddressToBytes(CopySubtreeAddr(ZeroAdrs, input))[9] == 2
  {
    var input: Adrs := [0, 0, 0x0000_0200, 0, 0, 0, 0, 0];
    Sha2InstancesValid();
    AddressByteAt(input, 2, 1);
    AddressByteAt(ZeroAdrs, 2, 1);
    CopySubtreeAddrCopiesType(Sha2_128s, ZeroAdrs, input);
  }

  /** Corrected `copy_subtree_addr`: exactly the layer and tree bytes come from `input`. */
  function CopySubtreeAddrByte(p: Params, out: Adrs, input: Adrs): (r: Adrs)
    requires p.Valid()
    ensures AddressToBytes(r)[..p.offsetTree + 8] == AddressToBytes(input)[..p.offsetTree + 8]
    ensures AddressToBytes(r)[p.offsetTree + 8..] == AddressToBytes(out)[p.offsetTree + 8..]
  {
    var t := p.offsetTree + 8;
    var b := AddressToBytes(input)[..t] + AddressToBytes(out)[t..];
    BytesToAddress(b)
  }

  /** The corrected copy keeps `out`'s type. */
  lemma CopySubtreeAddrByteKeepsType(p: Params, out: Adrs, input: Adrs)
    requires p.Valid()
    ensures AddressToBytes(CopySubtreeAddrByte(p, out, input))[p.offsetType] == AddressToBytes(out)[p.offsetType]
  {
    var t := p.offsetTree + 8;
    var r := CopySubtreeAddrByte(p, out, input);
    assert AddressToBytes(r)[t..][p.offsetType - t] == AddressToBytes(out)[t..][p.offsetType - t];
  }
}
