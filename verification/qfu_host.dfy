/** The host-side QFU image builder (tools/sysupdate/qmfmlib/qfu.py): the
    20-byte base header, the three extended headers, the per-block digest
    list and the assembly of header, padding and image data.

    SHA-256 and HMAC-SHA-256 are parameters (`sha`, and `hmac` taking the key
    first). Python exceptions are `Failure` values; `struct.error` raised by
    an out-of-range field is `PackRange`. */
module QfuHost {
  import opened Wrappers
  import opened Bytes
  import opened Soc
  import DefineParser

  /** "QFUH" */
  const MAGIC: Bytes := [0x51, 0x46, 0x55, 0x48]

  /** QFUHeader.SIZE: the base header, magic included. */
  const HEADER_SIZE: nat := 20

  /** The extended-header type codes. */
  const EXT_HDR_NONE: nat := 0
  const EXT_HDR_SHA256: nat := 1
  const EXT_HDR_HMAC256: nat := 2

  /** The attributes of a QFUHeader object. Python integers are unbounded
      and may be negative; `blockSize` starts out as None. */
  datatype Header = Header(
    vendorId: int,
    productId: int,
    productIdDfu: int,
    partitionId: int,
    version: int,
    blockSize: Option<int>,
    numBlocks: int,
    svn: int
  )

  /** The class defaults of QFUHeader. */
  const DefaultHeader: Header := Header(0, 0, 0, 0, 0, None, 0, 0)

  datatype HostError =
    | PrefixMissing      // "QFUH prefix missing"
    | LengthNotValid     // "QFU Header length not valid"
    | PackRange          // struct.error: a field does not fit its format
    | BlockSizeUnset     // arithmetic on a block size of None
    | ZeroBlockSize      // division by a block size of 0
    | NoData             // "No data defined for SHA256 calculation."
    | NoKey              // "No key defined for HMAC256 calculation."

  /* ---------------------------------------------------------------------- */
  /* Base header                                                            */

  /** Every field `struct.pack("<HHHHIHH")` is given fits its format. */
  predicate FieldsInRange(h: Header) {
    && IsU16(h.vendorId)
    && IsU16(h.productId)
    && IsU16(h.productIdDfu)
    && IsU16(h.partitionId)
    && IsU32(h.version)
    && h.blockSize.Some? && IsU16(h.blockSize.value)
    && IsU16(h.numBlocks)
  }

  /** The packed base header: magic, then the seven fields little-endian. */
  function Encode(h: Header): (r: Bytes)
    requires FieldsInRange(h)
    ensures |r| == HEADER_SIZE
  {
    MAGIC + Le16(h.vendorId) + Le16(h.productId) + Le16(h.productIdDfu) + Le16(h.partitionId)
      + Le32(h.version) + Le16(h.blockSize.value) + Le16(h.numBlocks)
  }

  /** `get_base_header`: fails exactly when a field is out of range; the
      result is 20 bytes beginning with the magic. */
  function GetBaseHeader(h: Header): (r: Result<Bytes, HostError>)
    ensures r.Success? <==> FieldsInRange(h)
    ensures r.Failure? ==> r.error == PackRange
    ensures r.Success? ==> |r.value| == HEADER_SIZE && r.value[..4] == MAGIC
  {
    if FieldsInRange(h) then Success(Encode(h)) else Failure(PackRange)
  }

  /** The header `h` with the seven packed fields taken from `data`. */
  function Decoded(h: Header, data: Bytes): Header
    requires |data| == HEADER_SIZE
  {
    h.(vendorId := ReadLe16(data, 4), productId := ReadLe16(data, 6),
       productIdDfu := ReadLe16(data, 8), partitionId := ReadLe16(data, 10),
       version := ReadLe32(data, 12), blockSize := Some(ReadLe16(data, 16)),
       numBlocks := ReadLe16(data, 18))
  }

  /** `set_from_data`: the magic is checked first, then the length; the
      security version number is not part of the base header and is kept. */
  function SetFromData(h: Header, data: Bytes): (r: Result<Header, HostError>)
    ensures r == Failure(PrefixMissing) <==> (|data| < 4 || data[..4] != MAGIC)
    ensures r == Failure(LengthNotValid) <==> (|data| >= 4 && data[..4] == MAGIC && |data| != HEADER_SIZE)
    ensures r.Success? ==> FieldsInRange(r.value) && r.value.svn == h.svn
  {
    if |data| < 4 || data[..4] != MAGIC then Failure(PrefixMissing)
    else if |data| != HEADER_SIZE then Failure(LengthNotValid)
    else Success(Decoded(h, data))
  }

  /** The byte offsets of the fields in an encoded header. */
  lemma EncodeLayout(h: Header)
    requires FieldsInRange(h)
    ensures Encode(h)[..4] == MAGIC
    ensures Encode(h)[4..6] == Le16(h.vendorId)
    ensures Encode(h)[6..8] == Le16(h.productId)
    ensures Encode(h)[8..10] == Le16(h.productIdDfu)
    ensures Encode(h)[10..12] == Le16(h.partitionId)
    ensures Encode(h)[12..16] == Le32(h.version)
    ensures Encode(h)[16..18] == Le16(h.blockSize.value)
    ensures Encode(h)[18..20] == Le16(h.numBlocks)
  {
  }

  /** Reading back a packed header restores its seven fields and keeps the
      reader's svn: `set_from_data` inverts `get_base_header`. */
  lemma DecodeEncode(g: Header, h: Header)
    requires FieldsInRange(h)
    ensures SetFromData(g, Encode(h)) == Success(h.(svn := g.svn))
  {
    var e := Encode(h);
    EncodeLayout(h);
    assert e[..4] == MAGIC;
    Le16Slice(e, 4, h.vendorId);
    Le16Slice(e, 6, h.productId);
    Le16Slice(e, 8, h.productIdDfu);
    Le16Slice(e, 10, h.partitionId);
    Le32Slice(e, 12, h.version);
    Le16Slice(e, 16, h.blockSize.value);
    Le16Slice(e, 18, h.numBlocks);
  }

  /** Packing the fields read from a well-formed base header gives back the
      same bytes. */
  lemma EncodeDecode(g: Header, data: Bytes)
    requires SetFromData(g, data).Success?
    ensures GetBaseHeader(SetFromData(g, data).value) == Success(data)
  {
    var h := SetFromData(g, data).value;
    EncodeLayout(h);
    ReadLe16Encode(data, 4);
    ReadLe16Encode(data, 6);
    ReadLe16Encode(data, 8);
    ReadLe16Encode(data, 10);
    ReadLe32Encode(data, 12);
    ReadLe16Encode(data, 16);
    ReadLe16Encode(data, 18);
    var e := Encode(h);
    assert forall i :: 0 <= i < HEADER_SIZE ==> e[i] == data[i] by {
      forall i | 0 <= i < HEADER_SIZE
        ensures e[i] == data[i]
      {
        if i < 4 {
          assert e[..4][i] == data[..4][i];
        } else if i < 6 {
          assert e[4..6][i - 4] == data[4..6][i - 4];
        } else if i < 8 {
          assert e[6..8][i - 6] == data[6..8][i - 6];
        } else if i < 10 {
          assert e[8..10][i - 8] == data[8..10][i - 8];
        } else if i < 12 {
          assert e[10..12][i - 10] == data[10..12][i - 10];
        } else if i < 16 {
          assert e[12..16][i - 12] == data[12..16][i - 12];
        } else if i < 18 {
          assert e[16..18][i - 16] == data[16..18][i - 16];
        } else {
          assert e[18..20][i - 18] == data[18..20][i - 18];
        }
      }
    }
    assert e == data;
  }

  /* ---------------------------------------------------------------------- */
  /* Extended headers                                                       */

  /** QFUExtHeaderNone, QFUExtHeaderSHA256 and QFUExtHeaderHMAC256; the HMAC
      one carries the signing key. */
  datatype ExtHeader = ExtNone | ExtSha256 | ExtHmac256(key: Bytes)

  function ExtId(e: ExtHeader): nat {
    match e
    case ExtNone => EXT_HDR_NONE
    case ExtSha256 => EXT_HDR_SHA256
    case ExtHmac256(_) => EXT_HDR_HMAC256
  }

  /** The extension `make` attaches. The SHA-256 flag is tested before the
      key, so it wins when both are given; an empty key is false in Python
      and selects no extension. */
  function ChooseExt(key: Option<Bytes>, addSha256: bool): (e: ExtHeader)
    ensures e.ExtSha256? <==> addSha256
    ensures e.ExtHmac256? <==> !addSha256 && key.Some? && key.value != []
    ensures e.ExtHmac256? ==> e.key == key.value
  {
    if addSha256 then ExtSha256
    else if key.Some? && key.value != [] then ExtHmac256(key.value)
    else ExtNone
  }

  /** `size()`: 4 bytes of type and reserved field, plus a 32-byte digest
      for SHA-256, plus the svn word, one digest per data block and the
      final tag for HMAC-SHA-256. */
  function ExtSize(e: ExtHeader, dataLen: nat, bs: nat): nat
    requires bs > 0
  {
    match e
    case ExtNone => 4
    case ExtSha256 => 32 + 4
    case ExtHmac256(_) => 4 + CeilDiv(dataLen, bs) * 32 + 32 + 4
  }

  /** The digests laid end to end. */
  function Concat(ds: seq<Digest>): (r: Bytes)
    ensures |r| == 32 * |ds|
  {
    if ds == [] then [] else ds[0] + Concat(ds[1..])
  }

  /** Digest `i` occupies bytes 32i to 32i + 32 of the concatenation. */
  lemma {:induction false} ConcatAt(ds: seq<Digest>, i: nat)
    requires i < |ds|
    ensures Concat(ds)[32 * i..32 * i + 32] == ds[i]
  {
    if i > 0 {
      ConcatAt(ds[1..], i - 1);
      var r := Concat(ds);
      var t := Concat(ds[1..]);
      assert r == ds[0] + t;
      assert r[32 * i..32 * i + 32] == t[32 * (i - 1)..32 * (i - 1) + 32];
    }
  }

  /** The digests of the consecutive `bs`-byte blocks of `data`, the last
      block possibly short: the reference for `compute_blocks`. */
  function BlockDigests(data: Bytes, bs: nat, sha: Bytes -> Digest): (ds: seq<Digest>)
    requires bs > 0
    ensures |ds| == CeilDiv(|data|, bs)
    decreases |data|
  {
    if data == [] then []
    else if |data| <= bs then [sha(data)]
    else
      var rest := BlockDigests(data[bs..], bs, sha);
      CeilDivAddBlocks(1, |data| - bs, bs);
      [sha(data[..bs])] + rest
  }

  function Min(a: int, b: int): int {
    if a < b then a else b
  }

  /** Digest `i` covers bytes i*bs up to i*bs + bs, cut off at the end of
      the data; every digest covers at least one byte. */
  lemma {:induction false} BlockDigestAt(data: Bytes, bs: nat, sha: Bytes -> Digest, i: nat)
    requires bs > 0 && i < CeilDiv(|data|, bs)
    ensures i * bs < |data|
    ensures BlockDigests(data, bs, sha)[i] == sha(data[i * bs..Min(i * bs + bs, |data|)])
    decreases |data|
  {
    if i > 0 {
      BlockDigestsTail(data, bs, sha, i);
      BlockDigestAt(data[bs..], bs, sha, i - 1);
      BlockShift(data, bs, i);
    } else if |data| <= bs {
      assert data[0 * bs..Min(0 * bs + bs, |data|)] == data;
    } else {
      assert data[0 * bs..Min(0 * bs + bs, |data|)] == data[..bs];
    }
  }

  /** Past the first block, digest `i` is digest `i - 1` of the rest. */
  lemma BlockDigestsTail(data: Bytes, bs: nat, sha: Bytes -> Digest, i: nat)
    requires bs > 0 && 0 < i < CeilDiv(|data|, bs)
    ensures |data| > bs && i - 1 < CeilDiv(|data| - bs, bs)
    ensures BlockDigests(data, bs, sha)[i] == BlockDigests(data[bs..], bs, sha)[i - 1]
  {
    CeilDivBeyondOne(|data|, bs);
    CeilDivAddBlocks(1, |data| - bs, bs);
  }

  /** Block `i - 1` of the rest is block `i` of the data. */
  lemma BlockShift(data: Bytes, bs: nat, i: nat)
    requires 0 < bs < |data| && i > 0 && (i - 1) * bs < |data| - bs
    ensures i * bs < |data|
    ensures var off1 := (i - 1) * bs;
      data[bs..][off1..Min(off1 + bs, |data| - bs)] == data[i * bs..Min(i * bs + bs, |data|)]
  {
    var off1 := (i - 1) * bs;
    MulPred(i, bs);
    SliceOfSlice(data, bs, data[bs..], off1, Min(off1 + bs, |data| - bs));
  }

  lemma CeilDivBeyondOne(n: nat, d: nat)
    requires d > 0
    ensures CeilDiv(n, d) > 1 ==> n > d
  {
    if n <= d && n > 0 {
      CeilDivUnique(n, d, 1);
    }
  }

  lemma MulPred(i: nat, d: nat)
    requires i > 0
    ensures (i - 1) * d + d == i * d
  {
  }

  /** The last digest covers what is left after the full blocks: a short
      tail, or a full block when the length is a multiple of `bs`, in which
      case there are exactly |data| / bs digests. */
  lemma BlockDigestsLast(data: Bytes, bs: nat, sha: Bytes -> Digest)
    requires bs > 0 && |data| > 0
    ensures var n := |BlockDigests(data, bs, sha)|;
      n > 0 && BlockDigests(data, bs, sha)[n - 1] == sha(data[(n - 1) * bs..])
    ensures |data| % bs == 0 ==> |BlockDigests(data, bs, sha)| == |data| / bs
  {
    var n := |BlockDigests(data, bs, sha)|;
    BlockDigestAt(data, bs, sha, n - 1);
    var lo := (n - 1) * bs;
    MulPred(n, bs);
    assert lo + bs >= |data|;
    assert data[lo..Min(lo + bs, |data|)] == data[lo..];
    if |data| % bs == 0 {
      DivExact(|data|, bs);
      CeilDivExact(|data| / bs, bs);
    }
  }

  lemma DivExact(n: nat, d: nat)
    requires d > 0 && n % d == 0
    ensures (n / d) * d == n
  {
  }

  /** Taking one full block off the front of the data. */
  lemma ConcatDigestsStep(x: Bytes, bs: nat, sha: Bytes -> Digest)
    requires bs > 0 && |x| >= bs
    ensures Concat(BlockDigests(x, bs, sha)) == sha(x[..bs]) + Concat(BlockDigests(x[bs..], bs, sha))
  {
    if |x| == bs {
      assert x[..bs] == x;
      assert x[bs..] == [];
    }
  }

  lemma LoopBound(i: nat, q: nat, d: nat, n: nat)
    requires d > 0 && q == n / d && i < q
    ensures i * d + d <= n
  {
    assert i * d + d == (i + 1) * d;
    assert (i + 1) * d <= q * d;
  }

  /** `compute_blocks` as written: the full blocks in a loop, then the short
      tail if any bytes remain. */
  method ComputeBlocks(data: Bytes, bs: nat, sha: Bytes -> Digest) returns (shaBlocks: Bytes)
    requires bs > 0
    ensures shaBlocks == Concat(BlockDigests(data, bs, sha))
  {
    var start;
    shaBlocks, start := FullBlocks(data, bs, sha);
    ComputeTail(data, bs, sha, start, shaBlocks);
    if start < |data| {
      shaBlocks := shaBlocks + sha(data[start..|data|]);
    }
  }

  /** The loop of `compute_blocks`: the digests of the |data| / bs full
      blocks, and where the remaining bytes start. */
  method FullBlocks(data: Bytes, bs: nat, sha: Bytes -> Digest) returns (shaBlocks: Bytes, start: nat)
    requires bs > 0
    ensures start <= |data| && |data| - start < bs
    ensures shaBlocks + Concat(BlockDigests(data[start..], bs, sha)) == Concat(BlockDigests(data, bs, sha))
  {
    shaBlocks := [];
    var nrBlocks := |data| / bs;
    var end := bs;
    start := 0;
    var i := 0;
    while i < nrBlocks
      invariant 0 <= i <= nrBlocks
      invariant start == i * bs && end == start + bs
      invariant start <= |data|
      invariant shaBlocks + Concat(BlockDigests(data[start..], bs, sha)) == Concat(BlockDigests(data, bs, sha))
    {
      ComputeAdvance(data, bs, sha, i, start, end, shaBlocks);
      var hashData := data[start..end];
      shaBlocks := shaBlocks + sha(hashData);
      start := start + bs;
      end := end + bs;
      i := i + 1;
    }
    ExitBound(nrBlocks, bs, |data|);
  }

  /** After the loop: fewer than `bs` bytes remain, and their digest, if
      any, completes the concatenation. */
  lemma ComputeTail(data: Bytes, bs: nat, sha: Bytes -> Digest, start: nat, acc: Bytes)
    requires bs > 0 && start <= |data| && |data| - start < bs
    requires acc + Concat(BlockDigests(data[start..], bs, sha)) == Concat(BlockDigests(data, bs, sha))
    ensures start < |data| ==> acc + sha(data[start..|data|]) == Concat(BlockDigests(data, bs, sha))
    ensures start == |data| ==> acc == Concat(BlockDigests(data, bs, sha))
  {
    var rest := data[start..];
    if start < |data| {
      assert BlockDigests(rest, bs, sha) == [sha(rest)];
      assert Concat([sha(rest)]) == sha(rest);
      assert data[start..|data|] == rest;
    } else {
      assert rest == [];
    }
  }

  /** One full block of the loop: its digest moves from the digests still
      to compute to those already computed. */
  lemma ComputeStep(data: Bytes, bs: nat, sha: Bytes -> Digest, start: nat, end: nat, acc: Bytes)
    requires bs > 0 && end == start + bs && end <= |data|
    requires acc + Concat(BlockDigests(data[start..], bs, sha)) == Concat(BlockDigests(data, bs, sha))
    ensures (acc + sha(data[start..end])) + Concat(BlockDigests(data[end..], bs, sha))
      == Concat(BlockDigests(data, bs, sha))
  {
    var rest := data[start..];
    ConcatDigestsStep(rest, bs, sha);
    assert rest[..bs] == data[start..end] && rest[bs..] == data[end..];
    var c := Concat(BlockDigests(data[end..], bs, sha));
    assert acc + sha(data[start..end]) + c == acc + (sha(data[start..end]) + c);
  }

  /** One turn of the loop: block `i` lies inside the data, and its digest
      joins those already computed. */
  lemma ComputeAdvance(data: Bytes, bs: nat, sha: Bytes -> Digest, i: nat, start: nat, end: nat, acc: Bytes)
    requires bs > 0 && i < |data| / bs && start == i * bs && end == start + bs
    requires acc + Concat(BlockDigests(data[start..], bs, sha)) == Concat(BlockDigests(data, bs, sha))
    ensures end <= |data| && end == (i + 1) * bs
    ensures (acc + sha(data[start..end])) + Concat(BlockDigests(data[end..], bs, sha))
      == Concat(BlockDigests(data, bs, sha))
  {
    assert end <= |data| && end == (i + 1) * bs by {
      LoopBound(i, |data| / bs, bs, |data|);
      MulPred(i + 1, bs);
    }
    ComputeStep(data, bs, sha, start, end, acc);
  }

  lemma ExitBound(q: nat, d: nat, n: nat)
    requires d > 0 && q == n / d
    ensures n - q * d < d
  {
  }

  /** The fixed part of the HMAC-SHA-256 extension: type, reserved field,
      svn, then the block digests. This is what the tag signs after the
      base header. */
  function HmacPrefix(svn: nat, data: Bytes, bs: nat, sha: Bytes -> Digest): (r: Bytes)
    requires IsU32(svn) && bs > 0
    ensures |r| == 8 + 32 * CeilDiv(|data|, bs)
  {
    Le16(EXT_HDR_HMAC256) + Le16(0) + Le32(svn) + Concat(BlockDigests(data, bs, sha))
  }

  /** `compute()` of the extension attached to header `h`. It is called
      after the base header has been packed, so the header's fields are in
      range. The SHA-256 extension refuses empty data; the HMAC-SHA-256 one
      refuses empty data, then an empty key, then an svn that does not fit
      32 bits, and divides by the block size. */
  function ExtCompute(e: ExtHeader, h: Header, data: Bytes, sha: Bytes -> Digest,
                      hmac: (Bytes, Bytes) -> Digest): (r: Result<Bytes, HostError>)
    requires FieldsInRange(h)
    ensures r.Failure? <==>
      || (!e.ExtNone? && data == [])
      || (e.ExtHmac256? && (e.key == [] || !IsU32(h.svn) || h.blockSize.value == 0))
    ensures r.Success? ==> |r.value| >= 4 && r.value[..2] == Le16(ExtId(e)) && r.value[2..4] == [0, 0]
    ensures r.Success? && h.blockSize.value > 0 ==> |r.value| == ExtSize(e, |data|, h.blockSize.value)
    ensures r.Success? && e.ExtSha256? ==> r.value[4..] == sha(data)
  {
    match e
    case ExtNone => Success(Le16(EXT_HDR_NONE) + Le16(0))
    case ExtSha256 =>
      if data == [] then Failure(NoData)
      else Success(Le16(EXT_HDR_SHA256) + Le16(0) + sha(data))
    case ExtHmac256(key) =>
      if data == [] then Failure(NoData)
      else if key == [] then Failure(NoKey)
      else if !IsU32(h.svn) then Failure(PackRange)
      else if h.blockSize.value == 0 then Failure(ZeroBlockSize)
      else
        var prefix := HmacPrefix(h.svn, data, h.blockSize.value, sha);
        Success(prefix + hmac(key, Encode(h) + prefix))
  }

  /** The HMAC-SHA-256 extension `c` holds the svn at offset 4, the digest of
      data block `i` at offset 8 + 32i, and last the tag over the base header
      followed by everything before the tag. */
  lemma HmacLayout(key: Bytes, h: Header, data: Bytes, sha: Bytes -> Digest,
                   hmac: (Bytes, Bytes) -> Digest, bs: nat, c: Bytes)
    requires FieldsInRange(h) && h.blockSize == Some(bs)
    requires ExtCompute(ExtHmac256(key), h, data, sha, hmac) == Success(c)
    ensures |c| == 8 + 32 * CeilDiv(|data|, bs) + 32
    ensures c[4..8] == Le32(h.svn)
    ensures c[8..8 + 32 * CeilDiv(|data|, bs)] == Concat(BlockDigests(data, bs, sha))
    ensures c[|c| - 32..] == hmac(key, Encode(h) + c[..|c| - 32])
  {
    var prefix := HmacPrefix(h.svn, data, bs, sha);
    assert c == prefix + hmac(key, Encode(h) + prefix);
    assert c[..|c| - 32] == prefix;
    assert prefix == (Le16(EXT_HDR_HMAC256) + Le16(0)) + Le32(h.svn) + Concat(BlockDigests(data, bs, sha));
    assert c[4..8] == prefix[4..8];
  }

  /** In the HMAC-SHA-256 extension `c`, the digest at offset 8 + 32i is that
      of data block `i`. */
  lemma HmacDigestAt(key: Bytes, h: Header, data: Bytes, sha: Bytes -> Digest,
                     hmac: (Bytes, Bytes) -> Digest, bs: nat, c: Bytes, i: nat)
    requires FieldsInRange(h) && h.blockSize == Some(bs)
    requires ExtCompute(ExtHmac256(key), h, data, sha, hmac) == Success(c)
    requires i < CeilDiv(|data|, bs)
    ensures i * bs < |data|
    ensures c[8 + 32 * i..8 + 32 * i + 32] == sha(data[i * bs..Min(i * bs + bs, |data|)])
  {
    HmacLayout(key, h, data, sha, hmac, bs, c);
    var ds := BlockDigests(data, bs, sha);
    BlockDigestAt(data, bs, sha, i);
    ConcatAt(ds, i);
    var n := CeilDiv(|data|, bs);
    var body := c[8..8 + 32 * n];
    assert body[32 * i..32 * i + 32] == c[8 + 32 * i..8 + 32 * i + 32];
  }

  /* ---------------------------------------------------------------------- */
  /* Header assembly and padding                                            */

  /** The base header followed by the extension, before padding. The base
      header is packed first, so an out-of-range field is reported before
      anything the extension would raise. */
  function UnpaddedHeader(h: Header, e: ExtHeader, data: Bytes, sha: Bytes -> Digest,
                          hmac: (Bytes, Bytes) -> Digest): (r: Result<Bytes, HostError>)
    ensures r.Success? ==> FieldsInRange(h) && ExtCompute(e, h, data, sha, hmac).Success?
    ensures r.Success? ==> r.value == Encode(h) + ExtCompute(e, h, data, sha, hmac).value
    ensures !FieldsInRange(h) ==> r == Failure(PackRange)
    ensures FieldsInRange(h) && ExtCompute(e, h, data, sha, hmac).Failure? ==> r == ExtCompute(e, h, data, sha, hmac).PropagateFailure()
  {
    if !FieldsInRange(h) then Failure(PackRange)
    else
      var ext :- ExtCompute(e, h, data, sha, hmac);
      Success(Encode(h) + ext)
  }

  /** The zero bytes `packed_qfu_header` appends as written: always between
      1 and `bs`, so the padded header is a multiple of the block size even
      when the unpadded one already was. */
  function PadAsWritten(len: nat, bs: nat): (n: nat)
    requires bs > 0
    ensures 1 <= n <= bs && (len + n) % bs == 0
  {
    PadFacts(len, bs);
    bs - len % bs
  }

  /** The padding `make` counts on: the least number of zero bytes that
      completes the last block. */
  function Pad(len: nat, bs: nat): (n: nat)
    requires bs > 0
    ensures n < bs && (len + n) % bs == 0
    ensures len + n == CeilDiv(len, bs) * bs
  {
    PadFacts(len, bs);
    (bs - len % bs) % bs
  }

  lemma PadFacts(len: nat, bs: nat)
    requires bs > 0
    ensures 0 <= len % bs < bs
    ensures (len + (bs - len % bs)) % bs == 0
    ensures len % bs == 0 ==> (bs - len % bs) % bs == 0 && len == CeilDiv(len, bs) * bs
    ensures len % bs != 0 ==> (bs - len % bs) % bs == bs - len % bs
                              && len + (bs - len % bs) == CeilDiv(len, bs) * bs
  {
    var q, rem := len / bs, len % bs;
    assert len == q * bs + rem;
    assert len + (bs - rem) == (q + 1) * bs;
    DivModUnique(len + (bs - rem), bs, q + 1, 0);
    if rem == 0 {
      DivModUnique(bs, bs, 1, 0);
      CeilDivExact(q, bs);
    } else {
      DivModUnique(bs - rem, bs, 0, bs - rem);
      CeilDivUnique(len, bs, q + 1);
    }
  }

  /** The two paddings agree exactly when the header does not already end on
      a block boundary; otherwise the code adds a whole block of zeros. */
  lemma PadAsWrittenIff(len: nat, bs: nat)
    requires bs > 0
    ensures PadAsWritten(len, bs) == Pad(len, bs) <==> len % bs != 0
    ensures len % bs == 0 ==> PadAsWritten(len, bs) == Pad(len, bs) + bs
  {
    PadFacts(len, bs);
  }

  /** `packed_qfu_header` as written. */
  function PackedQfuHeaderAsWritten(h: Header, e: ExtHeader, data: Bytes, sha: Bytes -> Digest,
                                    hmac: (Bytes, Bytes) -> Digest): (r: Result<Bytes, HostError>)
    ensures r.Failure? <==> UnpaddedHeader(h, e, data, sha, hmac).Failure? || h.blockSize.value == 0
  {
    var u :- UnpaddedHeader(h, e, data, sha, hmac);
    var bs := h.blockSize.value;
    if bs == 0 then Failure(ZeroBlockSize)
    else Success(u + Zeros(PadAsWritten(|u|, bs)))
  }

  /** The code's header is the unpadded header followed by 1 to `bs` zero
      bytes and always ends on a block boundary. */
  lemma PackedAsWrittenLayout(h: Header, e: ExtHeader, data: Bytes, sha: Bytes -> Digest,
                              hmac: (Bytes, Bytes) -> Digest, u: Bytes, p: Bytes)
    requires UnpaddedHeader(h, e, data, sha, hmac) == Success(u)
    requires PackedQfuHeaderAsWritten(h, e, data, sha, hmac) == Success(p)
    ensures h.blockSize.Some? && h.blockSize.value > 0
    ensures |u| < |p| <= |u| + h.blockSize.value && |p| % h.blockSize.value == 0
    ensures p[..|u|] == u
    ensures forall k :: |u| <= k < |p| ==> p[k] == 0
  {
  }

  /** `packed_qfu_header` with the padding `make` counts on. */
  function PackedQfuHeader(h: Header, e: ExtHeader, data: Bytes, sha: Bytes -> Digest,
                           hmac: (Bytes, Bytes) -> Digest): (r: Result<Bytes, HostError>)
    ensures r.Failure? <==> UnpaddedHeader(h, e, data, sha, hmac).Failure? || h.blockSize.value == 0
  {
    var u :- UnpaddedHeader(h, e, data, sha, hmac);
    var bs := h.blockSize.value;
    if bs == 0 then Failure(ZeroBlockSize)
    else Success(u + Zeros(Pad(|u|, bs)))
  }

  /** The corrected header is the unpadded header followed by fewer than
      `bs` zero bytes, and fills exactly CeilDiv(|unpadded|, bs) blocks. */
  lemma PackedLayout(h: Header, e: ExtHeader, data: Bytes, sha: Bytes -> Digest,
                     hmac: (Bytes, Bytes) -> Digest, u: Bytes, p: Bytes)
    requires UnpaddedHeader(h, e, data, sha, hmac) == Success(u)
    requires PackedQfuHeader(h, e, data, sha, hmac) == Success(p)
    ensures h.blockSize.Some? && h.blockSize.value > 0
    ensures |u| <= |p| < |u| + h.blockSize.value
    ensures |p| == CeilDiv(|u|, h.blockSize.value) * h.blockSize.value
    ensures p[..|u|] == u
    ensures forall k :: |u| <= k < |p| ==> p[k] == 0
  {
  }

  /** A concrete case of the difference: with 4-byte blocks and no
      extension the unpadded header is 24 bytes, six whole blocks, yet the
      code emits 28 bytes, seven blocks, while `make` counts six header
      blocks. */
  lemma PaddingExtraBlock(data: Bytes, sha: Bytes -> Digest, hmac: (Bytes, Bytes) -> Digest)
    ensures var h := DefaultHeader.(blockSize := Some(4), numBlocks := 7);
      && |UnpaddedHeader(h, ExtNone, data, sha, hmac).value| == 24
      && CeilDiv(HEADER_SIZE + ExtSize(ExtNone, |data|, 4), 4) == 6
      && |PackedQfuHeaderAsWritten(h, ExtNone, data, sha, hmac).value| == 28
      && |PackedQfuHeader(h, ExtNone, data, sha, hmac).value| == 24
  {
    CeilDivExact(6, 4);
  }

  /* ---------------------------------------------------------------------- */
  /* The image                                                              */

  /** The number of blocks the base header and extension occupy, as `make`
      counts them. */
  function HeaderBlocks(e: ExtHeader, dataLen: nat, bs: nat): nat
    requires bs > 0
  {
    CeilDiv(HEADER_SIZE + ExtSize(e, dataLen, bs), bs)
  }

  /** `QFUImage.make`: chooses the extension, sets `num_blocks` to the data
      blocks plus the header blocks, and returns the header so updated with
      the padded header followed by the unpadded image. A block size of None
      or 0 fails in the block arithmetic, a negative one when it is packed. */
  function Make(h: Header, data: Bytes, key: Option<Bytes>, addSha256: bool,
                sha: Bytes -> Digest, hmac: (Bytes, Bytes) -> Digest): (r: Result<(Header, Bytes), HostError>)
    ensures h.blockSize.None? ==> r == Failure(BlockSizeUnset)
    ensures h.blockSize == Some(0) ==> r == Failure(ZeroBlockSize)
    ensures r.Success? ==> r.value.0 == h.(numBlocks := r.value.0.numBlocks)
  {
    var e := ChooseExt(key, addSha256);
    match h.blockSize
    case None => Failure(BlockSizeUnset)
    case Some(bs) =>
      if bs == 0 then Failure(ZeroBlockSize)
      else if bs < 0 then Failure(PackRange)
      else
        var h1 := h.(numBlocks := CeilDiv(|data|, bs) + HeaderBlocks(e, |data|, bs));
        var header :- PackedQfuHeader(h1, e, data, sha, hmac);
        Success((h1, header + data))
  }

  /** When `make` succeeds: the block size is positive, the extension
      compute raised nothing, every packed field is in range. Conversely
      these conditions are enough. */
  lemma MakeSucceedsIff(h: Header, data: Bytes, key: Option<Bytes>, addSha256: bool,
                        sha: Bytes -> Digest, hmac: (Bytes, Bytes) -> Digest)
    requires h.blockSize.Some? && h.blockSize.value > 0
    ensures var bs := h.blockSize.value;
      var e := ChooseExt(key, addSha256);
      Make(h, data, key, addSha256, sha, hmac).Success? <==>
        && FieldsInRange(h.(numBlocks := CeilDiv(|data|, bs) + HeaderBlocks(e, |data|, bs)))
        && (!e.ExtNone? ==> data != [])
        && (e.ExtHmac256? ==> IsU32(h.svn))
  {
  }

  /** The layout of a built image: the base header of the updated header,
      the extension, zero padding to a block boundary, then the image
      bytes. `num_blocks` counts exactly the blocks of the result. */
  lemma MakeLayout(h: Header, data: Bytes, key: Option<Bytes>, addSha256: bool,
                   sha: Bytes -> Digest, hmac: (Bytes, Bytes) -> Digest, h1: Header, content: Bytes)
    requires Make(h, data, key, addSha256, sha, hmac) == Success((h1, content))
    ensures h.blockSize.Some? && h.blockSize.value > 0 && FieldsInRange(h1)
    ensures var bs := h.blockSize.value;
      var e := ChooseExt(key, addSha256);
      var hb := HeaderBlocks(e, |data|, bs);
      && h1 == h.(numBlocks := CeilDiv(|data|, bs) + hb)
      && ExtCompute(e, h1, data, sha, hmac).Success?
      && |content| == hb * bs + |data|
      && content[..HEADER_SIZE] == Encode(h1)
      && content[HEADER_SIZE..HEADER_SIZE + ExtSize(e, |data|, bs)] == ExtCompute(e, h1, data, sha, hmac).value
      && (forall k :: HEADER_SIZE + ExtSize(e, |data|, bs) <= k < hb * bs ==> content[k] == 0)
      && content[hb * bs..] == data
      && CeilDiv(|content|, bs) == h1.numBlocks
  {
    var bs := h.blockSize.value;
    var e := ChooseExt(key, addSha256);
    var hb := HeaderBlocks(e, |data|, bs);
    var u := UnpaddedHeader(h1, e, data, sha, hmac).value;
    var p := PackedQfuHeader(h1, e, data, sha, hmac).value;
    PackedLayout(h1, e, data, sha, hmac, u, p);
    assert content == p + data;
    assert |u| == HEADER_SIZE + ExtSize(e, |data|, bs);
    assert content[..HEADER_SIZE] == u[..HEADER_SIZE];
    assert content[HEADER_SIZE..|u|] == u[HEADER_SIZE..];
    assert content[hb * bs..] == data;
    CeilDivAddBlocks(hb, |data|, bs);
  }

  /** Reading the first 20 bytes of a built image back with `set_from_data`
      gives the updated header. */
  lemma MakeHeaderRoundTrip(h: Header, data: Bytes, key: Option<Bytes>, addSha256: bool,
                            sha: Bytes -> Digest, hmac: (Bytes, Bytes) -> Digest, h1: Header, content: Bytes)
    requires Make(h, data, key, addSha256, sha, hmac) == Success((h1, content))
    ensures |content| >= HEADER_SIZE
    ensures SetFromData(h1, content[..HEADER_SIZE]) == Success(h1)
  {
    MakeLayout(h, data, key, addSha256, sha, hmac, h1, content);
    DecodeEncode(h1, h1);
  }

  /** `QFUImage.make` as written: `num_blocks` counts the header blocks as
      `Make` does, but the header emitted is the one `packed_qfu_header`
      pads as written. */
  function MakeAsWritten(h: Header, data: Bytes, key: Option<Bytes>, addSha256: bool,
                         sha: Bytes -> Digest, hmac: (Bytes, Bytes) -> Digest): (r: Result<(Header, Bytes), HostError>)
    ensures h.blockSize.None? ==> r == Failure(BlockSizeUnset)
    ensures h.blockSize == Some(0) ==> r == Failure(ZeroBlockSize)
    ensures r.Success? ==> r.value.0 == h.(numBlocks := r.value.0.numBlocks)
  {
    var e := ChooseExt(key, addSha256);
    match h.blockSize
    case None => Failure(BlockSizeUnset)
    case Some(bs) =>
      if bs == 0 then Failure(ZeroBlockSize)
      else if bs < 0 then Failure(PackRange)
      else
        var h1 := h.(numBlocks := CeilDiv(|data|, bs) + HeaderBlocks(e, |data|, bs));
        var header :- PackedQfuHeaderAsWritten(h1, e, data, sha, hmac);
        Success((h1, header + data))
  }

  /** The base header and extension end exactly on a block boundary: the
      one case where the two paddings differ. */
  predicate HeaderAligned(h: Header, e: ExtHeader, dataLen: nat) {
    h.blockSize.Some? && h.blockSize.value > 0
    && (HEADER_SIZE + ExtSize(e, dataLen, h.blockSize.value)) % h.blockSize.value == 0
  }

  /** The code's `make` fails exactly when the corrected one does, and
      builds the same image unless the header is block-aligned. */
  lemma MakeAsWrittenAgrees(h: Header, data: Bytes, key: Option<Bytes>, addSha256: bool,
                            sha: Bytes -> Digest, hmac: (Bytes, Bytes) -> Digest)
    ensures MakeAsWritten(h, data, key, addSha256, sha, hmac).Success? <==> Make(h, data, key, addSha256, sha, hmac).Success?
    ensures !HeaderAligned(h, ChooseExt(key, addSha256), |data|) ==>
              MakeAsWritten(h, data, key, addSha256, sha, hmac) == Make(h, data, key, addSha256, sha, hmac)
  {
    if h.blockSize.Some? && h.blockSize.value > 0 {
      var bs := h.blockSize.value;
      var e := ChooseExt(key, addSha256);
      var h1 := h.(numBlocks := CeilDiv(|data|, bs) + HeaderBlocks(e, |data|, bs));
      PackedAgrees(h1, e, data, sha, hmac);
      var u := UnpaddedHeader(h1, e, data, sha, hmac);
      MakeFromPacked(h, data, key, addSha256, sha, hmac, h1);
      MakeAsWrittenFromPacked(h, data, key, addSha256, sha, hmac, h1);
      if u.Success? {
        assert |u.value| == HEADER_SIZE + ExtSize(e, |data|, bs);
      }
    }
  }

  /** `make` with a usable block size is the packed header followed by the
      data, under the header that counts the header blocks. */
  lemma MakeFromPacked(h: Header, data: Bytes, key: Option<Bytes>, addSha256: bool,
                       sha: Bytes -> Digest, hmac: (Bytes, Bytes) -> Digest, h1: Header)
    requires h.blockSize.Some? && h.blockSize.value > 0
    requires h1 == h.(numBlocks := CeilDiv(|data|, h.blockSize.value)
                                   + HeaderBlocks(ChooseExt(key, addSha256), |data|, h.blockSize.value))
    ensures var p := PackedQfuHeader(h1, ChooseExt(key, addSha256), data, sha, hmac);
      Make(h, data, key, addSha256, sha, hmac) == if p.Success? then Success((h1, p.value + data)) else Failure(p.error)
  {
  }

  lemma MakeAsWrittenFromPacked(h: Header, data: Bytes, key: Option<Bytes>, addSha256: bool,
                                sha: Bytes -> Digest, hmac: (Bytes, Bytes) -> Digest, h1: Header)
    requires h.blockSize.Some? && h.blockSize.value > 0
    requires h1 == h.(numBlocks := CeilDiv(|data|, h.blockSize.value)
                                   + HeaderBlocks(ChooseExt(key, addSha256), |data|, h.blockSize.value))
    ensures var p := PackedQfuHeaderAsWritten(h1, ChooseExt(key, addSha256), data, sha, hmac);
      MakeAsWritten(h, data, key, addSha256, sha, hmac) == if p.Success? then Success((h1, p.value + data)) else Failure(p.error)
  {
  }

  /** The two paddings fail together, and agree whenever the unpadded
      header does not end on a block boundary. */
  lemma PackedAgrees(h1: Header, e: ExtHeader, data: Bytes, sha: Bytes -> Digest,
                     hmac: (Bytes, Bytes) -> Digest)
    requires h1.blockSize.Some? && h1.blockSize.value > 0
    ensures PackedQfuHeaderAsWritten(h1, e, data, sha, hmac).Success? <==> PackedQfuHeader(h1, e, data, sha, hmac).Success?
    ensures var u := UnpaddedHeader(h1, e, data, sha, hmac);
      u.Success? && |u.value| % h1.blockSize.value != 0 ==>
        PackedQfuHeaderAsWritten(h1, e, data, sha, hmac) == PackedQfuHeader(h1, e, data, sha, hmac)
  {
    var u := UnpaddedHeader(h1, e, data, sha, hmac);
    if u.Success? {
      PadAsWrittenIff(|u.value|, h1.blockSize.value);
    }
  }

  /** A header that already ends on a block boundary: the corrected
      packing adds nothing, the code's packing a whole block of zeros. */
  lemma PackedAligned(h1: Header, e: ExtHeader, data: Bytes, sha: Bytes -> Digest,
                      hmac: (Bytes, Bytes) -> Digest, u: Bytes)
    requires UnpaddedHeader(h1, e, data, sha, hmac) == Success(u)
    requires h1.blockSize.Some? && h1.blockSize.value > 0 && |u| % h1.blockSize.value == 0
    ensures PackedQfuHeader(h1, e, data, sha, hmac) == Success(u)
    ensures PackedQfuHeaderAsWritten(h1, e, data, sha, hmac) == Success(u + Zeros(h1.blockSize.value))
  {
    PadAsWrittenIff(|u|, h1.blockSize.value);
    assert u + Zeros(0) == u;
  }

  /** With a block-aligned header the code's image carries one more block
      of zeros between header and data than the corrected one, so it is a
      block longer than `num_blocks` says. */
  lemma MakeAsWrittenExtraBlock(h: Header, data: Bytes, key: Option<Bytes>, addSha256: bool,
                                sha: Bytes -> Digest, hmac: (Bytes, Bytes) -> Digest, h1: Header, content: Bytes)
    requires Make(h, data, key, addSha256, sha, hmac) == Success((h1, content))
    requires HeaderAligned(h, ChooseExt(key, addSha256), |data|)
    ensures var bs := h.blockSize.value;
      var hb := HeaderBlocks(ChooseExt(key, addSha256), |data|, bs);
      && MakeAsWritten(h, data, key, addSha256, sha, hmac) == Success((h1, content[..hb * bs] + Zeros(bs) + data))
      && CeilDiv(|content[..hb * bs] + Zeros(bs) + data|, bs) == h1.numBlocks + 1
  {
    var bs := h.blockSize.value;
    var e := ChooseExt(key, addSha256);
    var hb := HeaderBlocks(e, |data|, bs);
    var h2 := h.(numBlocks := CeilDiv(|data|, bs) + hb);
    MakeFromPacked(h, data, key, addSha256, sha, hmac, h2);
    MakeAsWrittenFromPacked(h, data, key, addSha256, sha, hmac, h2);
    var u := UnpaddedHeader(h2, e, data, sha, hmac).value;
    assert |u| == HEADER_SIZE + ExtSize(e, |data|, bs);
    PackedAligned(h2, e, data, sha, hmac, u);
    assert h1 == h2 && content == u + data;
    AlignedHeaderBlocks(|u|, hb, bs, |data|);
    assert content[..hb * bs] == u;
    assert |u + Zeros(bs) + data| == |u| + bs + |data|;
  }

  /** Arithmetic of a header that fills `hb` whole blocks: one more block
      of zeros adds exactly one to the block count of the image. */
  lemma AlignedHeaderBlocks(len: nat, hb: nat, bs: nat, dataLen: nat)
    requires bs > 0 && len % bs == 0 && hb == CeilDiv(len, bs)
    ensures hb * bs == len
    ensures CeilDiv(len + bs + dataLen, bs) == hb + 1 + CeilDiv(dataLen, bs)
  {
    PadFacts(len, bs);
    MulPred(hb + 1, bs);
    CeilDivAddBlocks(hb + 1, dataLen, bs);
  }

  /** A length that is not a multiple of 32 is not a multiple of any block
      size that is. */
  lemma NotMultiple(len: nat, bs: nat)
    requires bs > 0 && bs % 32 == 0 && len % 32 != 0
    ensures len % bs != 0
  {
    if len % bs == 0 {
      var k, m := len / bs, bs / 32;
      assert len == k * bs;
      assert bs == m * 32;
      assert len == (k * m) * 32;
      DivModUnique(len, 32, k * m, 0);
    }
  }

  /** The headers are 24, 56 or 60 + 32n bytes long, so no block size that
      is a multiple of 32 aligns them: for such block sizes the code's
      `make` builds the corrected image, and every property of `Make`
      holds of it. */
  lemma MakeAgreesForWideBlocks(h: Header, data: Bytes, key: Option<Bytes>, addSha256: bool,
                                sha: Bytes -> Digest, hmac: (Bytes, Bytes) -> Digest)
    requires h.blockSize.Some? && h.blockSize.value > 0 && h.blockSize.value % 32 == 0
    ensures MakeAsWritten(h, data, key, addSha256, sha, hmac) == Make(h, data, key, addSha256, sha, hmac)
  {
    var bs := h.blockSize.value;
    var e := ChooseExt(key, addSha256);
    var len := HEADER_SIZE + ExtSize(e, |data|, bs);
    if e.ExtHmac256? {
      var n := CeilDiv(|data|, bs);
      assert len == (n + 1) * 32 + 28;
      DivModUnique(len, 32, n + 1, 28);
    } else {
      assert len == 24 || len == 56;
      DivModUnique(len, 32, len / 32, 24);
    }
    NotMultiple(len, bs);
    MakeAsWrittenAgrees(h, data, key, addSha256, sha, hmac);
  }

  /** The concrete case: 4-byte blocks, no extension, a one-byte image.
      `num_blocks` is 7, yet the code emits 29 bytes, eight blocks. */
  lemma MakeAsWrittenCounterexample(sha: Bytes -> Digest, hmac: (Bytes, Bytes) -> Digest)
    ensures var h := DefaultHeader.(blockSize := Some(4));
      && Make(h, [1], None, false, sha, hmac).Success?
      && Make(h, [1], None, false, sha, hmac).value.0.numBlocks == 7
      && |Make(h, [1], None, false, sha, hmac).value.1| == 25
      && MakeAsWritten(h, [1], None, false, sha, hmac).Success?
      && MakeAsWritten(h, [1], None, false, sha, hmac).value.0.numBlocks == 7
      && |MakeAsWritten(h, [1], None, false, sha, hmac).value.1| == 29
  {
    var h := DefaultHeader.(blockSize := Some(4));
    CeilDivExact(6, 4);
    assert CeilDiv(1, 4) == 1;
    var h1 := h.(numBlocks := 7);
    assert FieldsInRange(h1);
    assert |UnpaddedHeader(h1, ExtNone, [1], sha, hmac).value| == 24;
  }

  /* ---------------------------------------------------------------------- */
  /* Configuration                                                          */

  /** The command-line values `overwrite_config_parameters` reads: None when
      an option was not given. */
  datatype Overrides = Overrides(
    vid: Option<int>,
    appPid: Option<int>,
    appVersion: Option<int>,
    blockSize: Option<int>,
    svn: Option<int>,
    dfuPid: Option<int>,
    soc: Soc
  )

  /** The block size used when neither the configuration file nor the
      command line sets one. */
  function DefaultBlockSize(soc: Soc): nat {
    if soc == QuarkSe then 4096 else 2048
  }

  function Override<T>(given: Option<T>, current: T): T {
    if given.Some? then given.value else current
  }

  /** `overwrite_config_parameters`: a field changes only when its option was
      given; afterwards a block size is always set. */
  function OverwriteConfigParameters(h: Header, args: Overrides): (r: Header)
    ensures args.vid.None? ==> r.vendorId == h.vendorId
    ensures args.appPid.None? ==> r.productId == h.productId
    ensures args.appVersion.None? ==> r.version == h.version
    ensures args.svn.None? ==> r.svn == h.svn
    ensures args.dfuPid.None? ==> r.productIdDfu == h.productIdDfu
    ensures r.partitionId == h.partitionId && r.numBlocks == h.numBlocks
    ensures r.blockSize.Some?
    ensures h.blockSize.Some? && args.blockSize.None? ==> r.blockSize == h.blockSize
    ensures h.blockSize.None? && args.blockSize.None? ==> r.blockSize == Some(DefaultBlockSize(args.soc))
  {
    var g := h.(vendorId := Override(args.vid, h.vendorId),
                productId := Override(args.appPid, h.productId),
                version := Override(args.appVersion, h.version),
                blockSize := if args.blockSize.Some? then args.blockSize else h.blockSize,
                svn := Override(args.svn, h.svn),
                productIdDfu := Override(args.dfuPid, h.productIdDfu));
    if g.blockSize.None? then g.(blockSize := Some(DefaultBlockSize(args.soc))) else g
  }

  /** Applying the same command line twice changes nothing more. */
  lemma OverwriteIdempotent(h: Header, args: Overrides)
    ensures OverwriteConfigParameters(OverwriteConfigParameters(h, args), args) == OverwriteConfigParameters(h, args)
  {
  }

  /** The configuration-file macro names. */
  const VENDOR_ID: string := "QFU_VENDOR_ID"
  const PRODUCT_ID_DFU: string := "QFU_DFU_PRODUCT_ID"
  const PRODUCT_ID_APP: string := "QFU_APP_PRODUCT_ID"
  const VERSION: string := "QFU_VERSION"
  const BLOCK_SIZE: string := "QFU_BLOCK_SIZE"
  const SVN: string := "QFU_SVN"

  function Lookup(defines: map<string, int>, name: string, current: int): int {
    if name in defines then defines[name] else current
  }

  /** `set_from_file` given the macro table of the file: each of the six
      names that is defined replaces its field; the partition and block
      count are never taken from the file. */
  function SetFromFile(h: Header, defines: map<string, int>): (r: Header)
    ensures VENDOR_ID in defines ==> r.vendorId == defines[VENDOR_ID]
    ensures VENDOR_ID !in defines ==> r.vendorId == h.vendorId
    ensures PRODUCT_ID_APP in defines ==> r.productId == defines[PRODUCT_ID_APP]
    ensures PRODUCT_ID_APP !in defines ==> r.productId == h.productId
    ensures PRODUCT_ID_DFU in defines ==> r.productIdDfu == defines[PRODUCT_ID_DFU]
    ensures PRODUCT_ID_DFU !in defines ==> r.productIdDfu == h.productIdDfu
    ensures VERSION in defines ==> r.version == defines[VERSION]
    ensures VERSION !in defines ==> r.version == h.version
    ensures BLOCK_SIZE in defines ==> r.blockSize == Some(defines[BLOCK_SIZE])
    ensures BLOCK_SIZE !in defines ==> r.blockSize == h.blockSize
    ensures SVN in defines ==> r.svn == defines[SVN]
    ensures SVN !in defines ==> r.svn == h.svn
    ensures r.partitionId == h.partitionId && r.numBlocks == h.numBlocks
  {
    h.(vendorId := Lookup(defines, VENDOR_ID, h.vendorId),
       productId := Lookup(defines, PRODUCT_ID_APP, h.productId),
       productIdDfu := Lookup(defines, PRODUCT_ID_DFU, h.productIdDfu),
       version := Lookup(defines, VERSION, h.version),
       blockSize := if BLOCK_SIZE in defines then Some(defines[BLOCK_SIZE]) else h.blockSize,
       svn := Lookup(defines, SVN, h.svn))
  }

  /** The header the command-line tool builds before `make`: the class
      defaults with the requested partition, then the configuration file's
      lines if one is given, then the command-line options. A line whose
      value `int()` refuses aborts the tool, since only IOError is caught
      around `set_from_file`. */
  function Configure(partition: int, configLines: Option<seq<string>>, args: Overrides): Result<Header, DefineParser.ParseError> {
    var h := DefaultHeader.(partitionId := partition);
    if configLines.None? then Success(OverwriteConfigParameters(h, args))
    else
      var d :- DefineParser.DefinesAsWritten(configLines.value);
      Success(OverwriteConfigParameters(SetFromFile(h, d), args))
  }

  /** Without a configuration file the tool always gets a header. */
  lemma ConfigureWithoutFile(partition: int, args: Overrides)
    ensures Configure(partition, None, args) == Success(OverwriteConfigParameters(DefaultHeader.(partitionId := partition), args))
  {
  }

  /** Precedence of the configured values: a command-line option beats the
      configuration file, which beats the default; the block size falls
      back to the SoC's default. The tool gets that far exactly when no
      line's hexadecimal capture holds a comma. */
  lemma ConfigurePrecedence(partition: int, lines: seq<string>, args: Overrides)
    ensures Configure(partition, Some(lines), args).Success? <==>
              forall k :: 0 <= k < |lines| ==> DefineParser.ParseLineAsWritten(lines[k]).Success?
    ensures Configure(partition, Some(lines), args).Success? ==>
      var h := Configure(partition, Some(lines), args).value;
      var d := DefineParser.Defines(lines);
      && h.partitionId == partition
      && h.vendorId == (if args.vid.Some? then args.vid.value else if VENDOR_ID in d then d[VENDOR_ID] else 0)
      && h.productId == (if args.appPid.Some? then args.appPid.value else if PRODUCT_ID_APP in d then d[PRODUCT_ID_APP] else 0)
      && h.productIdDfu == (if args.dfuPid.Some? then args.dfuPid.value else if PRODUCT_ID_DFU in d then d[PRODUCT_ID_DFU] else 0)
      && h.version == (if args.appVersion.Some? then args.appVersion.value else if VERSION in d then d[VERSION] else 0)
      && h.svn == (if args.svn.Some? then args.svn.value else if SVN in d then d[SVN] else 0)
      && h.blockSize == Some(if args.blockSize.Some? then args.blockSize.value
                             else if BLOCK_SIZE in d then d[BLOCK_SIZE] else DefaultBlockSize(args.soc))
  {
    DefineParser.DefinesAsWrittenAgrees(lines);
  }

  /** A configuration file holding `#define PAIR 0x1,0x2` stops the tool
      with the error `int()` raises, whatever the command line says. */
  lemma CommaListFileAborts(partition: int, args: Overrides)
    ensures Configure(partition, Some(["#define PAIR 0x1,0x2"]), args) == Failure(DefineParser.ValueError("1,0"))
  {
    var lines := ["#define PAIR 0x1,0x2"];
    DefineParser.CommaListLineAsWritten(lines[0]);
    assert lines[..0] == [];
  }

  /** The version the tool writes comes from the last line of the
      configuration file that defines QFU_VERSION, unless the command line
      gives one. */
  lemma ConfiguredVersionFromLastLine(partition: int, lines: seq<string>, args: Overrides, i: nat, v: int)
    requires args.appVersion.None?
    requires i < |lines| && DefineParser.LineDefines(lines[i], VERSION, v)
    requires forall k, w :: i < k < |lines| ==> !DefineParser.LineDefines(lines[k], VERSION, w)
    ensures Configure(partition, Some(lines), args).Success? ==> Configure(partition, Some(lines), args).value.version == v
  {
    DefineParser.DefinesAsWrittenAgrees(lines);
    DefineParser.DefinesLastWins(lines, VERSION, i, v);
  }

}
