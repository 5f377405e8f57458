/**
 * The SPHINCS+ hash address (ADRS, section 4.2 of FIPS 205): 32 bytes held as
 * eight 32-bit words.  The word view is what callers pass around; the byte
 * view, obtained through the native-endian conversion (little-endian here),
 * is where the field offsets of the parameter set have their meaning.
 *
 * Setters follow one of two patterns, as in `src/address.rs`:
 *  - byte view round trip: convert to bytes, write the field, convert back
 *    (`SetTreeAddr`, `SetType`, `SetKeypairAddr`, `SetChainAddr`,
 *    `SetTreeHeight`, `SetTreeIndex`);
 *  - raw word shift: `SetAddr` assigns a whole word (`SetLayerAddr`,
 *    `SetHashAddr`), and `GetAddr` reads from a byte to the end of its word.
 */
module Address {
  import opened Bytes
  import opened Params

  /** The reasons an address is used for; `TypeCode` gives the `SPX_ADDR_TYPE_*` value. */
  datatype AddrType = Wots | WotsPk | HashTree | ForsTree | ForsPk | WotsPrf | ForsPrf

  function TypeCode(t: AddrType): (c: bv32)
    ensures c < 7
  {
    match t
    case Wots => 0
    case WotsPk => 1
    case HashTree => 2
    case ForsTree => 3
    case ForsPk => 4
    case WotsPrf => 5
    case ForsPrf => 6
  }

  /** Distinct address types have distinct codes, so `SetType` separates their hashes. */
  lemma TypeCodeInjective(s: AddrType, t: AddrType)
    ensures TypeCode(s) == TypeCode(t) <==> s == t
  {
  }

  /** The word view: `[u32; 8]`. */
  type Adrs = a: seq<bv32> | |a| == 8 witness [0, 0, 0, 0, 0, 0, 0, 0]

  /** The byte view: `[u8; 32]`. */
  type AdrsBytes = b: seq<bv8> | |b| == 32 witness seq(32, _ => 0)

  /** Bytes `[4w, 4w + 4)` of the byte view: the bytes of word `w`. */
  function WordOf(b: AdrsBytes, w: nat): seq<bv8>
    requires w < 8
  {
    b[4 * w .. 4 * w + 4]
  }

  /** Byte `4w + j` lies in word `w`, at position `j`. */
  lemma ByteIndex(w: nat, j: nat)
    requires j < 4
    ensures (4 * w + j) / 4 == w && (4 * w + j) % 4 == j
  {
  }

  /**
   * `address_to_bytes`: word `w` supplies bytes `[4w, 4w + 4)`, in native
   * (little-endian) order.
   */
  function AddressToBytes(a: Adrs): (b: AdrsBytes)
    ensures forall w :: 0 <= w < 8 ==> WordOf(b, w) == WordToBytes(a[w])
  {
    var b: AdrsBytes := seq(32, i requires 0 <= i < 32 => WordToBytes(a[i / 4])[i % 4]);
    WordsOfBytes(a, b);
    b
  }

  /** Bytes laid out byte by byte from the words hold each word's bytes as a block. */
  lemma WordsOfBytes(a: Adrs, b: AdrsBytes)
    requires forall i :: 0 <= i < 32 ==> b[i] == WordToBytes(a[i / 4])[i % 4]
    ensures forall w :: 0 <= w < 8 ==> WordOf(b, w) == WordToBytes(a[w])
  {
    forall w | 0 <= w < 8 ensures WordOf(b, w) == WordToBytes(a[w]) {
      forall j | 0 <= j < 4 ensures WordOf(b, w)[j] == WordToBytes(a[w])[j] {
        ByteIndex(w, j);
      }
    }
  }

  /**
   * `bytes_to_address`: word `w` is read from bytes `[4w, 4w + 4)`, and
   * `address_to_bytes` gives those bytes back.
   */
  function BytesToAddress(b: AdrsBytes): (a: Adrs)
    ensures AddressToBytes(a) == b
  {
    var a: Adrs := seq(8, w requires 0 <= w < 8 => BytesToWord(WordOf(b, w)));
    forall w | 0 <= w < 8 ensures WordToBytes(a[w]) == WordOf(b, w) {
      assert a[w] == BytesToWord(WordOf(b, w));
    }
    BytesOfWords(a, b);
    a
  }

  /** Bytes that hold each word's bytes as a block are the byte view of the words. */
  lemma BytesOfWords(a: Adrs, b: AdrsBytes)
    requires forall w :: 0 <= w < 8 ==> WordToBytes(a[w]) == WordOf(b, w)
    ensures AddressToBytes(a) == b
  {
    forall i | 0 <= i < 32 ensures AddressToBytes(a)[i] == b[i] {
      var w, j := i / 4, i % 4;
      assert i == 4 * w + j;
      AddressByteAt(a, w, j);
      assert WordOf(b, w)[j] == b[4 * w + j];
    }
  }

  /** Byte `4w + j` of the byte view is byte `j` of word `w`. */
  lemma AddressByteAt(a: Adrs, w: nat, j: nat)
    requires w < 8 && j < 4
    ensures AddressToBytes(a)[4 * w + j] == WordToBytes(a[w])[j]
  {
    assert WordOf(AddressToBytes(a), w)[j] == AddressToBytes(a)[4 * w + j];
  }

  /** Converting the word view to bytes and back loses nothing. */
  lemma AddressRoundTrip(a: Adrs)
    ensures BytesToAddress(AddressToBytes(a)) == a
  {
    var a' := BytesToAddress(AddressToBytes(a));
    forall w | 0 <= w < 8 ensures a'[w] == a[w] {
      assert WordToBytes(a'[w]) == WordOf(AddressToBytes(a'), w) == WordOf(AddressToBytes(a), w) == WordToBytes(a[w]);
    }
  }

  /** Addresses that agree on a word agree on that word's bytes. */
  lemma SameWordSameByte(a: Adrs, b: Adrs, i: nat)
    requires i < 32 && a[i / 4] == b[i / 4]
    ensures AddressToBytes(a)[i] == AddressToBytes(b)[i]
  {
    var w, j := i / 4, i % 4;
    assert i == 4 * w + j;
    AddressByteAt(a, w, j);
    AddressByteAt(b, w, j);
  }

  /** The byte views of `a` and `r` agree everywhere outside `[lo, hi)`. */
  predicate AgreeOutside(a: Adrs, r: Adrs, lo: nat, hi: nat) {
    forall i :: 0 <= i < 32 && !(lo <= i < hi) ==> AddressToBytes(r)[i] == AddressToBytes(a)[i]
  }

  /**
   * The byte view round trip shared by the byte setters: convert to bytes,
   * overwrite `[offset, offset + |field|)` with `field`, convert back.
   */
  function WriteBytes(a: Adrs, offset: nat, field: seq<bv8>): (r: Adrs)
    requires offset + |field| <= 32
    ensures AddressToBytes(r)[offset .. offset + |field|] == field
    ensures forall j :: 0 <= j < |field| ==> AddressToBytes(r)[offset + j] == field[j]
    ensures AgreeOutside(a, r, offset, offset + |field|)
  {
    var b := AddressToBytes(a);
    var b' := b[..offset] + field + b[offset + |field|..];
    BytesToAddress(b')
  }

  /**
   * `set_addr`: shifts `value` to the byte position of `offset` inside its
   * word and assigns the result to that whole word.
   */
  function SetAddr(a: Adrs, offset: nat, value: bv32): (r: Adrs)
    requires offset < 32
    ensures r[offset / 4] == ShiftLeftBytes(value, offset % 4)
    ensures forall w :: 0 <= w < 8 && w != offset / 4 ==> r[w] == a[w]
  {
    a[offset / 4 := ShiftLeftBytes(value, offset % 4)]
  }

  /**
   * `get_addr`: word `offset / 4` shifted down to the byte position of
   * `offset`. Its byte view is the lemma `GetAddrBytes`.
   */
  function GetAddr(a: Adrs, offset: nat): bv32
    requires offset < 32
  {
    ShiftRightBytes(a[offset / 4], offset % 4)
  }

  /**
   * In the byte view, `GetAddr` reads the bytes from `offset` to the end of
   * its word, least significant first, and fills the top with zeros.
   */
  lemma GetAddrBytes(a: Adrs, offset: nat)
    requires offset < 32
    ensures WordToBytes(GetAddr(a, offset)) == AddressToBytes(a)[offset .. offset - offset % 4 + 4] + Zeros(offset % 4)
  {
    var w, k := offset / 4, offset % 4;
    ShiftRightBytesView(a[w], k);
    var b := AddressToBytes(a);
    assert offset == 4 * w + k;
    assert b[offset .. offset - k + 4] == b[4 * w .. 4 * w + 4][k..];
  }

  /**
   * In the byte view, `SetAddr` rewrites the four bytes of the word holding
   * `offset`: the bytes below `offset` become zero, and from `offset` on the
   * word holds the low bytes of `value` in order; every other byte is kept.
   */
  lemma SetAddrBytes(a: Adrs, offset: nat, value: bv32)
    requires offset < 32
    ensures var lo := offset - offset % 4;
      && AddressToBytes(SetAddr(a, offset, value))[lo .. lo + 4]
         == Zeros(offset % 4) + WordToBytes(value)[..4 - offset % 4]
      && AgreeOutside(a, SetAddr(a, offset, value), lo, lo + 4)
  {
    var r := SetAddr(a, offset, value);
    var w, k := offset / 4, offset % 4;
    assert offset - k == 4 * w;
    ShiftLeftBytesView(value, k);
    assert AddressToBytes(r)[4 * w .. 4 * w + 4] == WordOf(AddressToBytes(r), w);
    OtherWordsKept(a, r, w);
  }

  /** Byte `j` of a word that holds `value` shifted up by `k` bytes: zero below `k`, then `value`'s bytes. */
  lemma ShiftedWordByte(r: Adrs, w: nat, value: bv32, k: nat, j: nat)
    requires w < 8 && k < 4 && j < 4 && r[w] == ShiftLeftBytes(value, k)
    ensures AddressToBytes(r)[4 * w + j] == if j < k then 0 else WordToBytes(value)[j - k]
  {
    ShiftLeftBytesView(value, k);
    AddressByteAt(r, w, j);
    var z := Zeros(k) + WordToBytes(value)[..4 - k];
    assert WordToBytes(r[w]) == z;
    assert z[j] == if j < k then 0 else WordToBytes(value)[j - k];
  }

  /** Addresses that differ at most in word `w` have the same bytes outside that word. */
  lemma OtherWordsKept(a: Adrs, r: Adrs, w: nat)
    requires w < 8
    requires forall v :: 0 <= v < 8 && v != w ==> r[v] == a[v]
    ensures AgreeOutside(a, r, 4 * w, 4 * w + 4)
  {
    forall i | 0 <= i < 32 && !(4 * w <= i < 4 * w + 4) ensures AddressToBytes(r)[i] == AddressToBytes(a)[i] {
      assert i / 4 != w;
      SameWordSameByte(r, a, i);
    }
  }

  /** Reading back what `SetAddr` wrote gives `value mod 2^(32 - 8 * (offset % 4))`. */
  lemma GetSetAddr(a: Adrs, offset: nat, value: bv32)
    requires offset < 32
    ensures GetAddr(SetAddr(a, offset, value), offset) == value & ShiftRightBytes(0xFFFF_FFFF, offset % 4)
  {
    ShiftLeftRight(value, offset % 4);
  }

  /** `set_layer_addr`: the raw word shift at `SPX_OFFSET_LAYER`. */
  function SetLayerAddr(p: Params, a: Adrs, layer: bv32): (r: Adrs)
    requires p.Valid()
    ensures r[p.offsetLayer / 4] == ShiftLeftBytes(layer, p.offsetLayer % 4)
    ensures forall w :: 0 <= w < 8 && w != p.offsetLayer / 4 ==> r[w] == a[w]
    ensures GetAddr(r, p.offsetLayer) == layer & ShiftRightBytes(0xFFFF_FFFF, p.offsetLayer % 4)
  {
    GetSetAddr(a, p.offsetLayer, layer);
    SetAddr(a, p.offsetLayer, layer)
  }

  /**
   * `set_tree_addr`: the 8-byte big-endian encoding of `tree`
   * (`u64::to_be_bytes`) at `SPX_OFFSET_TREE`; it decodes back to `tree`.
   */
  function SetTreeAddr(p: Params, a: Adrs, tree: bv64): (r: Adrs)
    requires p.Valid()
    ensures AddressToBytes(r)[p.offsetTree .. p.offsetTree + 8] == BigEndian64(tree)
    ensures FromBigEndian64(AddressToBytes(r)[p.offsetTree .. p.offsetTree + 8]) == tree
    ensures AgreeOutside(a, r, p.offsetTree, p.offsetTree + 8)
  {
    BigEndian64RoundTrip(tree);
    WriteBytes(a, p.offsetTree, BigEndian64(tree))
  }

  /** `set_type`: byte `SPX_OFFSET_TYPE` becomes `addr_type mod 256`. */
  function SetType(p: Params, a: Adrs, addrType: bv32): (r: Adrs)
    requires p.Valid()
    ensures AddressToBytes(r)[p.offsetType] == Low8(addrType)
    ensures AgreeOutside(a, r, p.offsetType, p.offsetType + 1)
  {
    WriteBytes(a, p.offsetType, [Low8(addrType)])
  }

  /** Two addresses that differ only in their type code are different addresses. */
  lemma SetTypeSeparates(p: Params, a: Adrs, s: AddrType, t: AddrType)
    requires p.Valid() && s != t
    ensures SetType(p, a, TypeCode(s)) != SetType(p, a, TypeCode(t))
  {
    var rs, rt := SetType(p, a, TypeCode(s)), SetType(p, a, TypeCode(t));
    TypeCodeInjective(s, t);
    assert AddressToBytes(rs)[p.offsetType] != AddressToBytes(rt)[p.offsetType];
  }

  /** `copy_subtree_addr`: the first four words of `input` over those of `out`. */
  function CopySubtreeAddr(out: Adrs, input: Adrs): (r: Adrs)
    ensures r[..4] == input[..4]
    ensures r[4..] == out[4..]
  {
    input[..4] + out[4..]
  }

  /**
   * In the byte view `CopySubtreeAddr` copies the first 16 bytes; when the
   * tree field ends within them, the layer and tree fields of the result are
   * those of `input`.
   */
  lemma CopySubtreeAddrBytes(p: Params, out: Adrs, input: Adrs)
    requires p.Valid()
    ensures AddressToBytes(CopySubtreeAddr(out, input))[..16] == AddressToBytes(input)[..16]
    ensures AddressToBytes(CopySubtreeAddr(out, input))[16..] == AddressToBytes(out)[16..]
    ensures p.offsetTree + 8 <= 16 ==>
      AddressToBytes(CopySubtreeAddr(out, input))[..p.offsetTree + 8] == AddressToBytes(input)[..p.offsetTree + 8]
  {
    var r := CopySubtreeAddr(out, input);
    var br, bi, bo := AddressToBytes(r), AddressToBytes(input), AddressToBytes(out);
    forall i | 0 <= i < 16 ensures br[i] == bi[i] {
      assert r[i / 4] == input[i / 4];
    }
    forall i | 16 <= i < 32 ensures br[i] == bo[i] {
      assert r[i / 4] == out[i / 4];
    }
  }

  /**
   * `set_keypair_addr`: byte `SPX_OFFSET_KP_ADDR1` becomes `keypair mod 256`;
   * with a two-byte keypair field, byte `SPX_OFFSET_KP_ADDR2` becomes
   * `(keypair >> 8) mod 256`, otherwise it is left alone.
   */
  function SetKeypairAddr(p: Params, a: Adrs, keypair: bv32): (r: Adrs)
    requires p.Valid()
    ensures AddressToBytes(r)[p.offsetKpAddr1] == Low8(keypair)
    ensures p.WideKeypair() ==> AddressToBytes(r)[p.offsetKpAddr2] == Low8(keypair >> 8)
    ensures !p.WideKeypair() ==> AddressToBytes(r)[p.offsetKpAddr2] == AddressToBytes(a)[p.offsetKpAddr2]
    ensures forall i :: 0 <= i < 32 && i != p.offsetKpAddr1 && i != p.offsetKpAddr2 ==>
      AddressToBytes(r)[i] == AddressToBytes(a)[i]
  {
    BytesToAddress(KeypairBytes(p, AddressToBytes(a), keypair))
  }

  /** The byte view written by `set_keypair_addr`: the high byte first (when wide), then the low byte. */
  function KeypairBytes(p: Params, b: AdrsBytes, keypair: bv32): (r: AdrsBytes)
    requires p.Valid()
    ensures r[p.offsetKpAddr1] == Low8(keypair)
    ensures p.WideKeypair() ==> r[p.offsetKpAddr2] == Low8(keypair >> 8)
    ensures !p.WideKeypair() ==> r[p.offsetKpAddr2] == b[p.offsetKpAddr2]
    ensures forall i :: 0 <= i < 32 && i != p.offsetKpAddr1 && i != p.offsetKpAddr2 ==> r[i] == b[i]
  {
    var high := if p.WideKeypair() then b[p.offsetKpAddr2 := Low8(keypair >> 8)] else b;
    high[p.offsetKpAddr1 := Low8(keypair)]
  }

  /**
   * `copy_keypair_addr`: the first `(SPX_OFFSET_TREE + 8) / 4` words of
   * `input`, then the keypair bytes moved word-wise with `GetAddr`/`SetAddr`
   * (the high byte first, when the keypair field is two bytes wide).  Each
   * move assigns the whole word of its keypair byte: the bytes below it
   * become zero, the bytes from it on are `input`'s (`MovedWordBytes`).
   */
  function CopyKeypairAddr(p: Params, out: Adrs, input: Adrs): (r: Adrs)
    requires p.Valid()
    ensures r[..(p.offsetTree + 8) / 4] == input[..(p.offsetTree + 8) / 4]
    ensures r[p.offsetKpAddr1 / 4] == ShiftLeftBytes(GetAddr(input, p.offsetKpAddr1), p.offsetKpAddr1 % 4)
    ensures GetAddr(r, p.offsetKpAddr1) == GetAddr(input, p.offsetKpAddr1)
    ensures p.WideKeypair() && p.offsetKpAddr2 / 4 != p.offsetKpAddr1 / 4 ==>
      r[p.offsetKpAddr2 / 4] == ShiftLeftBytes(GetAddr(input, p.offsetKpAddr2), p.offsetKpAddr2 % 4)
    ensures p.WideKeypair() && p.offsetKpAddr2 / 4 != p.offsetKpAddr1 / 4 ==>
      GetAddr(r, p.offsetKpAddr2) == GetAddr(input, p.offsetKpAddr2)
    ensures forall w ::
      ((p.offsetTree + 8) / 4 <= w < 8 && w != p.offsetKpAddr1 / 4 && (w != p.offsetKpAddr2 / 4 || !p.WideKeypair()))
      ==> r[w] == out[w]
  {
    var k := (p.offsetTree + 8) / 4;
    var prefix := input[..k] + out[k..];
    var high := if p.WideKeypair() then SetAddr(prefix, p.offsetKpAddr2, GetAddr(input, p.offsetKpAddr2)) else prefix;
    ShiftRightLeftRight(input[p.offsetKpAddr2 / 4], p.offsetKpAddr2 % 4);
    ShiftRightLeftRight(input[p.offsetKpAddr1 / 4], p.offsetKpAddr1 % 4);
    SetAddr(high, p.offsetKpAddr1, GetAddr(input, p.offsetKpAddr1))
  }

  /**
   * The byte view of a keypair word of `CopyKeypairAddr`: a word that
   * `SetAddr` wrote with the value `GetAddr` read from `input` at the same
   * offset is zeros below `offset` and `input`'s bytes from `offset` to the
   * end of the word.
   */
  lemma MovedWordBytes(r: Adrs, input: Adrs, offset: nat)
    requires offset < 32
    requires r[offset / 4] == ShiftLeftBytes(GetAddr(input, offset), offset % 4)
    ensures WordOf(AddressToBytes(r), offset / 4) == Zeros(offset % 4) + AddressToBytes(input)[offset .. 4 * (offset / 4) + 4]
  {
    var v := GetAddr(input, offset);
    assert WordOf(AddressToBytes(r), offset / 4) == WordToBytes(r[offset / 4]);
    GetAddrBytes(input, offset);
    ShiftLeftBytesView(v, offset % 4);
    assert WordToBytes(v)[..4 - offset % 4] == AddressToBytes(input)[offset .. 4 * (offset / 4) + 4];
  }

  /** `set_chain_addr`: byte `SPX_OFFSET_CHAIN_ADDR` becomes `chain mod 256`. */
  function SetChainAddr(p: Params, a: Adrs, chain: bv32): (r: Adrs)
    requires p.Valid()
    ensures AddressToBytes(r)[p.offsetChainAddr] == Low8(chain)
    ensures AgreeOutside(a, r, p.offsetChainAddr, p.offsetChainAddr + 1)
  {
    WriteBytes(a, p.offsetChainAddr, [Low8(chain)])
  }

  /** `set_hash_addr`: the raw word shift at `SPX_OFFSET_HASH_ADDR`. */
  function SetHashAddr(p: Params, a: Adrs, hash: bv32): (r: Adrs)
    requires p.Valid()
    ensures r[p.offsetHashAddr / 4] == ShiftLeftBytes(hash, p.offsetHashAddr % 4)
    ensures forall w :: 0 <= w < 8 && w != p.offsetHashAddr / 4 ==> r[w] == a[w]
    ensures GetAddr(r, p.offsetHashAddr) == hash & ShiftRightBytes(0xFFFF_FFFF, p.offsetHashAddr % 4)
  {
    GetSetAddr(a, p.offsetHashAddr, hash);
    SetAddr(a, p.offsetHashAddr, hash)
  }

  /** `set_tree_height`: byte `SPX_OFFSET_TREE_HGT` becomes `tree_height mod 256`. */
  function SetTreeHeight(p: Params, a: Adrs, treeHeight: bv32): (r: Adrs)
    requires p.Valid()
    ensures AddressToBytes(r)[p.offsetTreeHgt] == Low8(treeHeight)
    ensures AgreeOutside(a, r, p.offsetTreeHgt, p.offsetTreeHgt + 1)
  {
    WriteBytes(a, p.offsetTreeHgt, [Low8(treeHeight)])
  }

  /**
   * `set_tree_index`: the 4-byte big-endian encoding of `tree_index`
   * (`u32_to_bytes`) at `SPX_OFFSET_TREE_INDEX`; it decodes back to
   * `tree_index`.
   */
  function SetTreeIndex(p: Params, a: Adrs, treeIndex: bv32): (r: Adrs)
    requires p.Valid()
    ensures AddressToBytes(r)[p.offsetTreeIndex .. p.offsetTreeIndex + 4] == BigEndian32(treeIndex)
    ensures FromBigEndian32(AddressToBytes(r)[p.offsetTreeIndex .. p.offsetTreeIndex + 4]) == treeIndex
    ensures AgreeOutside(a, r, p.offsetTreeIndex, p.offsetTreeIndex + 4)
  {
    BigEndian32RoundTrip(treeIndex);
    WriteBytes(a, p.offsetTreeIndex, BigEndian32(treeIndex))
  }
}
