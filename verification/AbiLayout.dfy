/**
  The ABI encoding of the create-token parameters: one dynamic tuple behind an outer offset
  (Solidity Contract ABI Specification, section "Formal Specification of the Encoding").
 */
module AbiLayout {
  import opened Common
  import opened Bytes

  datatype Vesting = Vesting(amount: Uint256, launchTime: Uint256, duration: Uint256, mode: Byte)

  datatype Params = Params(
    name: seq<Byte>, symbol: seq<Byte>, totalSupply: Uint256, saleAmount: Uint256,
    virtualBnbReserve: Uint256, virtualTokenReserve: Uint256, launchTime: Uint256, creator: Address,
    timestamp: Uint256, requestId: Bytes32, nonce: Uint256, initialBuyPercentage: Uint256,
    marginBnb: Uint256, marginTime: Uint256, vesting: seq<Vesting>)

  const HEAD_WORDS := 15
  const HEAD_SIZE := 480

  // ---- encoding -------------------------------------------------------------------------------

  /** Length rounded up to whole words. */
  function PaddedLength(n: nat): nat { (n + 31) / 32 * 32 }

  function EncodeBytes(s: seq<Byte>): seq<Byte> {
    Word(|s|) + s + Zeros(PaddedLength(|s|) - |s|)
  }

  function EncodeVesting(v: Vesting): (s: seq<Byte>)
    ensures |s| == 128
  {
    Word(v.amount) + Word(v.launchTime) + Word(v.duration) + Word(v.mode)
  }

  function EncodeVestings(vs: seq<Vesting>): (s: seq<Byte>)
    ensures |s| == 128 * |vs|
  {
    if vs == [] then [] else EncodeVestings(vs[..|vs| - 1]) + EncodeVesting(vs[|vs| - 1])
  }

  function SymbolOffset(p: Params): nat { HEAD_SIZE + |EncodeBytes(p.name)| }

  function VestingOffset(p: Params): nat { SymbolOffset(p) + |EncodeBytes(p.symbol)| }

  /** The `i`-th head word: a value, or the offset of a dynamic field. */
  function HeadWord(p: Params, i: nat): (w: seq<Byte>)
    requires i < HEAD_WORDS
    ensures |w| == 32
  {
    match i
    case 0 => Word(HEAD_SIZE)
    case 1 => Word(SymbolOffset(p))
    case 2 => Word(p.totalSupply)
    case 3 => Word(p.saleAmount)
    case 4 => Word(p.virtualBnbReserve)
    case 5 => Word(p.virtualTokenReserve)
    case 6 => Word(p.launchTime)
    case 7 => Zeros(12) + p.creator
    case 8 => Word(p.timestamp)
    case 9 => p.requestId
    case 10 => Word(p.nonce)
    case 11 => Word(p.initialBuyPercentage)
    case 12 => Word(p.marginBnb)
    case 13 => Word(p.marginTime)
    case _ => Word(VestingOffset(p))
  }

  function Head(p: Params): (words: seq<seq<Byte>>)
    ensures |words| == HEAD_WORDS && forall w <- words :: |w| == 32
  {
    seq(HEAD_WORDS, i requires 0 <= i < HEAD_WORDS => HeadWord(p, i))
  }

  function Flatten(words: seq<seq<Byte>>): seq<Byte> {
    if words == [] then [] else Flatten(words[..|words| - 1]) + words[|words| - 1]
  }

  function Tail(p: Params): seq<Byte> {
    EncodeBytes(p.name) + EncodeBytes(p.symbol) + (Word(|p.vesting|) + EncodeVestings(p.vesting))
  }

  /** `abi.Arguments{{Type: tuple}}.Pack`. */
  function Encode(p: Params): seq<Byte> {
    Word(32) + (Flatten(Head(p)) + Tail(p))
  }

  /** Lengths are Go lengths, below 2^63. */
  predicate Encodable(p: Params) {
    |p.name| < U64 / 2 && |p.symbol| < U64 / 2 && |p.vesting| < U64 / 2
  }

  // ---- decoding -------------------------------------------------------------------------------

  function BytesAt(data: seq<Byte>, pos: nat, n: nat): Option<seq<Byte>> {
    if pos + n <= |data| then Some(data[pos..pos + n]) else None
  }

  function NatAt(data: seq<Byte>, pos: nat): Option<nat> {
    match BytesAt(data, pos, 32)
    case None => None
    case Some(w) => Some(ToNat(w))
  }

  function Uint256At(data: seq<Byte>, pos: nat): Option<Uint256> {
    match NatAt(data, pos)
    case None => None
    case Some(v) => if v < Pow256(32) then Some(v) else None
  }

  /** A dynamic byte string at `pos`: its length and its bytes. */
  function DecodeBytes(data: seq<Byte>, pos: nat): Option<seq<Byte>> {
    match NatAt(data, pos)
    case None => None
    case Some(n) => BytesAt(data, pos + 32, n)
  }

  function DecodeAddress(data: seq<Byte>, pos: nat): Option<Address> {
    match BytesAt(data, pos, 32)
    case None => None
    case Some(w) => if w[..12] == Zeros(12) then Some(w[12..]) else None
  }

  function DecodeVesting(data: seq<Byte>, pos: nat): Option<Vesting> {
    match (Uint256At(data, pos), Uint256At(data, pos + 32), Uint256At(data, pos + 64), NatAt(data, pos + 96))
    case (Some(a), Some(l), Some(d), Some(m)) => if m < 256 then Some(Vesting(a, l, d, m)) else None
    case _ => None
  }

  function DecodeVestingList(data: seq<Byte>, pos: nat, n: nat): Option<seq<Vesting>> {
    if n == 0 then Some([])
    else
      match (DecodeVestingList(data, pos, n - 1), DecodeVesting(data, pos + 128 * (n - 1)))
      case (Some(vs), Some(v)) => Some(vs + [v])
      case _ => None
  }

  function DecodeVestings(data: seq<Byte>, pos: nat): Option<seq<Vesting>> {
    match NatAt(data, pos)
    case None => None
    case Some(n) => DecodeVestingList(data, pos + 32, n)
  }

  datatype Statics = Statics(
    totalSupply: Uint256, saleAmount: Uint256, virtualBnbReserve: Uint256, virtualTokenReserve: Uint256,
    launchTime: Uint256, creator: Address, timestamp: Uint256, requestId: Bytes32, nonce: Uint256,
    initialBuyPercentage: Uint256, marginBnb: Uint256, marginTime: Uint256)

  function DecodeStatics(data: seq<Byte>, base: nat): Option<Statics> {
    match (Uint256At(data, base + 64), Uint256At(data, base + 96), Uint256At(data, base + 128), Uint256At(data, base + 160),
           Uint256At(data, base + 192), DecodeAddress(data, base + 224))
    case (Some(ts), Some(sa), Some(vb), Some(vt), Some(lt), Some(cr)) =>
      (match (Uint256At(data, base + 256), BytesAt(data, base + 288, 32), Uint256At(data, base + 320),
              Uint256At(data, base + 352), Uint256At(data, base + 384), Uint256At(data, base + 416))
       case (Some(t), Some(id), Some(no), Some(ib), Some(mb), Some(mt)) =>
         Some(Statics(ts, sa, vb, vt, lt, cr, t, id, no, ib, mb, mt))
       case _ => None)
    case _ => None
  }

  /** Follows the outer offset, then the three offsets in the head. */
  function Decode(data: seq<Byte>): Option<Params> {
    match NatAt(data, 0)
    case None => None
    case Some(base) =>
      match (NatAt(data, base), NatAt(data, base + 32), NatAt(data, base + 448), DecodeStatics(data, base))
      case (Some(nameAt), Some(symbolAt), Some(vestingAt), Some(s)) =>
        (match (DecodeBytes(data, base + nameAt), DecodeBytes(data, base + symbolAt), DecodeVestings(data, base + vestingAt))
         case (Some(name), Some(symbol), Some(vesting)) =>
           Some(Params(name, symbol, s.totalSupply, s.saleAmount, s.virtualBnbReserve, s.virtualTokenReserve, s.launchTime,
                       s.creator, s.timestamp, s.requestId, s.nonce, s.initialBuyPercentage, s.marginBnb, s.marginTime, vesting))
         case _ => None)
      case _ => None
  }

  // ---- what sits where ------------------------------------------------------------------------

  /** `piece` occurs in `data` at `pos`. */
  ghost predicate At(data: seq<Byte>, pos: nat, piece: seq<Byte>) {
    pos + |piece| <= |data| && data[pos..pos + |piece|] == piece
  }

  lemma AtConcat(data: seq<Byte>, pos: nat, a: seq<Byte>, b: seq<Byte>)
    requires At(data, pos, a + b)
    ensures At(data, pos, a) && At(data, pos + |a|, b)
  {
    var w := data[pos..pos + |a + b|];
    assert data[pos..pos + |a|] == w[..|a|] == a;
    assert data[pos + |a|..pos + |a| + |b|] == w[|a|..] == b;
  }

  lemma {:induction false} AtFlatten(data: seq<Byte>, pos: nat, words: seq<seq<Byte>>, i: nat)
    requires (forall w <- words :: |w| == 32) && At(data, pos, Flatten(words)) && i < |words|
    ensures |Flatten(words)| == 32 * |words|
    ensures At(data, pos + 32 * i, words[i])
  {
    var n := |words| - 1;
    assert words[n] in words;
    AtConcat(data, pos, Flatten(words[..n]), words[n]);
    FlattenLength(words[..n]);
    if i < n {
      AtFlatten(data, pos, words[..n], i);
    }
  }

  lemma {:induction false} FlattenLength(words: seq<seq<Byte>>)
    requires forall w <- words :: |w| == 32
    ensures |Flatten(words)| == 32 * |words|
  {
    if words != [] {
      assert words[|words| - 1] in words;
      FlattenLength(words[..|words| - 1]);
    }
  }

  lemma WordAt(data: seq<Byte>, pos: nat, v: nat)
    requires At(data, pos, Word(v)) && v < Pow256(32)
    ensures NatAt(data, pos) == Some(v) && Uint256At(data, pos) == Some(v)
  {
    WordReads(v);
  }

  lemma BytesDecode(data: seq<Byte>, pos: nat, s: seq<Byte>)
    requires At(data, pos, EncodeBytes(s)) && |s| < Pow256(32)
    ensures DecodeBytes(data, pos) == Some(s)
  {
    hide Word, Pow256, ToNat;
    AtConcat(data, pos, Word(|s|) + s, Zeros(PaddedLength(|s|) - |s|));
    AtConcat(data, pos, Word(|s|), s);
    WordAt(data, pos, |s|);
  }

  lemma VestingDecodes(data: seq<Byte>, pos: nat, v: Vesting)
    requires At(data, pos, EncodeVesting(v))
    ensures DecodeVesting(data, pos) == Some(v)
  {
    hide Word, ToNat, NatAt, Uint256At;
    SmallFits(32);
    AtConcat(data, pos, Word(v.amount) + Word(v.launchTime) + Word(v.duration), Word(v.mode));
    AtConcat(data, pos, Word(v.amount) + Word(v.launchTime), Word(v.duration));
    AtConcat(data, pos, Word(v.amount), Word(v.launchTime));
    WordAt(data, pos, v.amount);
    WordAt(data, pos + 32, v.launchTime);
    WordAt(data, pos + 64, v.duration);
    WordAt(data, pos + 96, v.mode);
  }

  lemma {:induction false} VestingListDecodes(data: seq<Byte>, pos: nat, vs: seq<Vesting>)
    requires At(data, pos, EncodeVestings(vs))
    ensures DecodeVestingList(data, pos, |vs|) == Some(vs)
  {
    hide DecodeVesting, EncodeVesting, At;
    if vs != [] {
      var n := |vs| - 1;
      AtConcat(data, pos, EncodeVestings(vs[..n]), EncodeVesting(vs[n]));
      VestingListDecodes(data, pos, vs[..n]);
      VestingDecodes(data, pos + 128 * n, vs[n]);
      assert vs == vs[..n] + [vs[n]];
    }
  }

  lemma Layout(p: Params)
    ensures var data := Encode(p);
            && At(data, 0, Word(32))
            && HeadAt(data, p)
            && At(data, 32 + HEAD_SIZE, EncodeBytes(p.name))
            && At(data, 32 + SymbolOffset(p), EncodeBytes(p.symbol))
            && At(data, 32 + VestingOffset(p), Word(|p.vesting|))
            && At(data, 64 + VestingOffset(p), EncodeVestings(p.vesting))
  {
    hide At, Word, EncodeBytes, EncodeVestings, HeadAt, Head, Flatten, Tail;
    var data := Encode(p);
    Whole(data);
    AtConcat(data, 0, Word(32), Flatten(Head(p)) + Tail(p));
    AtConcat(data, 32, Flatten(Head(p)), Tail(p));
    FlattenLength(Head(p));
    HeadLayout(data, p);
    TailLayout(data, p);
  }

  lemma HeadLayout(data: seq<Byte>, p: Params)
    requires At(data, 32, Flatten(Head(p)))
    ensures HeadAt(data, p)
  {
    hide At, HeadWord, Flatten;
    forall i | 0 <= i < HEAD_WORDS
      ensures At(data, 32 + 32 * i, HeadWord(p, i))
    {
      AtFlatten(data, 32, Head(p), i);
      assert Head(p)[i] == HeadWord(p, i);
    }
  }

  lemma TailLayout(data: seq<Byte>, p: Params)
    requires At(data, 32 + HEAD_SIZE, Tail(p))
    ensures At(data, 32 + HEAD_SIZE, EncodeBytes(p.name))
    ensures At(data, 32 + SymbolOffset(p), EncodeBytes(p.symbol))
    ensures At(data, 32 + VestingOffset(p), Word(|p.vesting|))
    ensures At(data, 64 + VestingOffset(p), EncodeVestings(p.vesting))
  {
    hide At, Word, EncodeBytes, EncodeVestings;
    var pos := 32 + HEAD_SIZE;
    AtConcat(data, pos, EncodeBytes(p.name) + EncodeBytes(p.symbol), Word(|p.vesting|) + EncodeVestings(p.vesting));
    AtConcat(data, pos, EncodeBytes(p.name), EncodeBytes(p.symbol));
    AtConcat(data, 32 + VestingOffset(p), Word(|p.vesting|), EncodeVestings(p.vesting));
  }

  lemma Whole(data: seq<Byte>)
    ensures At(data, 0, data)
  {
    assert data[0..0 + |data|] == data;
  }

  ghost predicate HeadAt(data: seq<Byte>, p: Params) {
    forall i :: 0 <= i < HEAD_WORDS ==> At(data, 32 + 32 * i, HeadWord(p, i))
  }

  lemma ValueAt(data: seq<Byte>, p: Params, i: nat, v: Uint256)
    requires HeadAt(data, p) && i < HEAD_WORDS && HeadWord(p, i) == Word(v)
    ensures Uint256At(data, 32 + 32 * i) == Some(v) && NatAt(data, 32 + 32 * i) == Some(v)
  {
    hide HeadWord, Word;
    WordAt(data, 32 + 32 * i, v);
  }

  lemma StaticsDecode(data: seq<Byte>, p: Params)
    requires HeadAt(data, p)
    ensures DecodeStatics(data, 32) == Some(Statics(
              p.totalSupply, p.saleAmount, p.virtualBnbReserve, p.virtualTokenReserve, p.launchTime, p.creator, p.timestamp,
              p.requestId, p.nonce, p.initialBuyPercentage, p.marginBnb, p.marginTime))
  {
    hide HeadAt, Word, ToNat, NatAt, Uint256At, DecodeAddress, BytesAt;
    ValueAt(data, p, 2, p.totalSupply);
    ValueAt(data, p, 3, p.saleAmount);
    ValueAt(data, p, 4, p.virtualBnbReserve);
    ValueAt(data, p, 5, p.virtualTokenReserve);
    ValueAt(data, p, 6, p.launchTime);
    AddressDecodes(data, p);
    ValueAt(data, p, 8, p.timestamp);
    IdDecodes(data, p);
    ValueAt(data, p, 10, p.nonce);
    ValueAt(data, p, 11, p.initialBuyPercentage);
    ValueAt(data, p, 12, p.marginBnb);
    ValueAt(data, p, 13, p.marginTime);
  }

  lemma AddressDecodes(data: seq<Byte>, p: Params)
    requires HeadAt(data, p)
    ensures DecodeAddress(data, 256) == Some(p.creator)
  {
    assert At(data, 32 + 32 * 7, HeadWord(p, 7));
    AddressAt(data, 256, p.creator);
  }

  lemma IdDecodes(data: seq<Byte>, p: Params)
    requires HeadAt(data, p)
    ensures BytesAt(data, 320, 32) == Some(p.requestId)
  {
    assert At(data, 32 + 32 * 9, HeadWord(p, 9));
    IdAt(data, 320, p.requestId);
  }

  lemma AddressAt(data: seq<Byte>, pos: nat, a: Address)
    requires At(data, pos, Zeros(12) + a)
    ensures DecodeAddress(data, pos) == Some(a)
  {
    var w := Zeros(12) + a;
    assert w[..12] == Zeros(12) && w[12..] == a;
  }

  lemma IdAt(data: seq<Byte>, pos: nat, id: Bytes32)
    requires At(data, pos, id)
    ensures BytesAt(data, pos, 32) == Some(id)
  {
  }

  // ---- round trip -----------------------------------------------------------------------------

  /** Lengths and offsets fit their words. */
  lemma SizesFit(p: Params)
    requires Encodable(p)
    ensures |p.name| < Pow256(32) && |p.symbol| < Pow256(32) && |p.vesting| < Pow256(32)
    ensures SymbolOffset(p) < Pow256(32) && VestingOffset(p) < Pow256(32)
  {
    hide Pow256, Word;
    SmallFits(32);
  }

  lemma OffsetsDecode(p: Params)
    requires Encodable(p)
    ensures var data := Encode(p);
            && NatAt(data, 0) == Some(32)
            && NatAt(data, 32) == Some(HEAD_SIZE)
            && NatAt(data, 64) == Some(SymbolOffset(p))
            && NatAt(data, 480) == Some(VestingOffset(p))
  {
    hide Encode, Word, ToNat, Pow256, NatAt, Uint256At, HeadAt, At, SymbolOffset, VestingOffset;
    var data := Encode(p);
    Layout(p);
    SizesFit(p);
    SmallFits(32);
    WordAt(data, 0, 32);
    ValueAt(data, p, 0, HEAD_SIZE);
    ValueAt(data, p, 1, SymbolOffset(p));
    ValueAt(data, p, 14, VestingOffset(p));
  }

  lemma DynamicsDecode(p: Params)
    requires Encodable(p)
    ensures var data := Encode(p);
            && DecodeBytes(data, 32 + HEAD_SIZE) == Some(p.name)
            && DecodeBytes(data, 32 + SymbolOffset(p)) == Some(p.symbol)
            && DecodeVestings(data, 32 + VestingOffset(p)) == Some(p.vesting)
  {
    hide Encode, Word, ToNat, NatAt, HeadAt, At, SymbolOffset, VestingOffset, EncodeBytes, EncodeVestings,
      DecodeBytes, DecodeVestingList;
    var data := Encode(p);
    Layout(p);
    SizesFit(p);
    BytesDecode(data, 32 + HEAD_SIZE, p.name);
    BytesDecode(data, 32 + SymbolOffset(p), p.symbol);
    WordAt(data, 32 + VestingOffset(p), |p.vesting|);
    VestingListDecodes(data, 64 + VestingOffset(p), p.vesting);
  }

  /** Main result: decoding the encoding returns all fifteen fields, vesting list included. */
  lemma DecodeAfterEncode(p: Params)
    requires Encodable(p)
    ensures Decode(Encode(p)) == Some(p)
  {
    hide Encode, DecodeStatics, NatAt, DecodeBytes, DecodeVestings, SymbolOffset, VestingOffset, HeadAt;
    Layout(p);
    OffsetsDecode(p);
    StaticsDecode(Encode(p), p);
    DynamicsDecode(p);
  }

  /** The encoding therefore determines the parameters. */
  lemma EncodeInjective(p: Params, q: Params)
    requires Encodable(p) && Encodable(q)
    ensures Encode(p) == Encode(q) <==> p == q
  {
    DecodeAfterEncode(p);
    DecodeAfterEncode(q);
  }

  // ---- the layout by position -----------------------------------------------------------------

  /** `SetBytes(data[from..from+32])`: the number in 32 bytes. */
  function OffsetAt(data: seq<Byte>, from: nat): nat
    requires from + 32 <= |data|
  {
    ToNat(data[from..from + 32])
  }

  /** Padding goes up to the next multiple of 32, and not further. */
  lemma PaddingIsLeast(n: nat, m: nat)
    ensures m == PaddedLength(n) <==> m % 32 == 0 && n <= m < n + 32
  {
  }

  lemma TotalLength(p: Params)
    ensures |Encode(p)| == 608 + PaddedLength(|p.name|) + PaddedLength(|p.symbol|) + 128 * |p.vesting|
    ensures SymbolOffset(p) == 512 + PaddedLength(|p.name|)
    ensures VestingOffset(p) == 544 + PaddedLength(|p.name|) + PaddedLength(|p.symbol|)
  {
    hide PaddedLength, Flatten, Head;
    FlattenLength(Head(p));
  }

  /** The twelve fixed fields, each at its place of the head: a word, an address after twelve zeros, or 32 bytes. */
  lemma FieldsInPlace(p: Params)
    ensures var data := Encode(p);
            && |data| >= 608
            && OffsetAt(data, 96) == p.totalSupply && OffsetAt(data, 128) == p.saleAmount
            && OffsetAt(data, 160) == p.virtualBnbReserve && OffsetAt(data, 192) == p.virtualTokenReserve
            && OffsetAt(data, 224) == p.launchTime
            && data[256..268] == Zeros(12) && data[268..288] == p.creator
            && OffsetAt(data, 288) == p.timestamp && data[320..352] == p.requestId && OffsetAt(data, 352) == p.nonce
            && OffsetAt(data, 384) == p.initialBuyPercentage && OffsetAt(data, 416) == p.marginBnb
            && OffsetAt(data, 448) == p.marginTime
  {
    hide Encode, HeadAt, Word, ToNat, PaddedLength, Pow256;
    var data := Encode(p);
    TotalLength(p);
    Layout(p);
    ValueAt(data, p, 2, p.totalSupply);
    ValueAt(data, p, 3, p.saleAmount);
    ValueAt(data, p, 4, p.virtualBnbReserve);
    ValueAt(data, p, 5, p.virtualTokenReserve);
    ValueAt(data, p, 6, p.launchTime);
    CreatorAt(data, p);
    ValueAt(data, p, 8, p.timestamp);
    IdDecodes(data, p);
    ValueAt(data, p, 10, p.nonce);
    ValueAt(data, p, 11, p.initialBuyPercentage);
    ValueAt(data, p, 12, p.marginBnb);
    ValueAt(data, p, 13, p.marginTime);
  }

  lemma CreatorAt(data: seq<Byte>, p: Params)
    requires HeadAt(data, p)
    ensures |data| >= 288 && data[256..268] == Zeros(12) && data[268..288] == p.creator
  {
    assert At(data, 32 + 32 * 7, HeadWord(p, 7));
    AtConcat(data, 256, Zeros(12), p.creator);
  }

  /** A byte string is its length, its bytes and zeros up to a whole word. */
  predicate BytesInPlace(data: seq<Byte>, pos: nat, s: seq<Byte>) {
    && pos + 32 + PaddedLength(|s|) <= |data|
    && OffsetAt(data, pos) == |s|
    && data[pos + 32..pos + 32 + |s|] == s
    && data[pos + 32 + |s|..pos + 32 + PaddedLength(|s|)] == Zeros(PaddedLength(|s|) - |s|)
  }

  lemma BytesAtPlace(data: seq<Byte>, pos: nat, s: seq<Byte>)
    requires At(data, pos, EncodeBytes(s)) && |s| < Pow256(32)
    ensures BytesInPlace(data, pos, s)
  {
    hide Word, ToNat, Pow256;
    AtConcat(data, pos, Word(|s|) + s, Zeros(PaddedLength(|s|) - |s|));
    AtConcat(data, pos, Word(|s|), s);
    WordAt(data, pos, |s|);
  }

  predicate VestingInPlace(data: seq<Byte>, pos: nat, v: Vesting) {
    && pos + 128 <= |data|
    && OffsetAt(data, pos) == v.amount && OffsetAt(data, pos + 32) == v.launchTime
    && OffsetAt(data, pos + 64) == v.duration && OffsetAt(data, pos + 96) == v.mode
  }

  lemma VestingAtPlace(data: seq<Byte>, pos: nat, v: Vesting)
    requires At(data, pos, EncodeVesting(v))
    ensures VestingInPlace(data, pos, v)
  {
    hide Word, ToNat, Pow256;
    SmallFits(32);
    AtConcat(data, pos, Word(v.amount) + Word(v.launchTime) + Word(v.duration), Word(v.mode));
    AtConcat(data, pos, Word(v.amount) + Word(v.launchTime), Word(v.duration));
    AtConcat(data, pos, Word(v.amount), Word(v.launchTime));
    WordAt(data, pos, v.amount);
    WordAt(data, pos + 32, v.launchTime);
    WordAt(data, pos + 64, v.duration);
    WordAt(data, pos + 96, v.mode);
  }

  lemma {:induction false} VestingsInPlace(data: seq<Byte>, pos: nat, vs: seq<Vesting>, i: nat)
    requires At(data, pos, EncodeVestings(vs)) && i < |vs|
    ensures VestingInPlace(data, pos + 128 * i, vs[i])
  {
    hide EncodeVesting, VestingInPlace, At;
    var n := |vs| - 1;
    AtConcat(data, pos, EncodeVestings(vs[..n]), EncodeVesting(vs[n]));
    if i < n {
      VestingsInPlace(data, pos, vs[..n], i);
    } else {
      VestingAtPlace(data, pos + 128 * n, vs[n]);
    }
  }

  /**
    Main result on the layout: behind the outer offset and the head the name starts at byte 512, the symbol
    right behind the padded name, and the vesting list right behind the padded symbol, as the three offsets
    of the head say, and nothing follows the vesting list.
   */
  lemma DynamicsInPlace(p: Params)
    requires Encodable(p)
    ensures var data, name, symbol := Encode(p), PaddedLength(|p.name|), PaddedLength(|p.symbol|);
            && |data| == 608 + name + symbol + 128 * |p.vesting|
            && OffsetAt(data, 0) == 32
            && OffsetAt(data, 32) == 480 && BytesInPlace(data, 512, p.name)
            && OffsetAt(data, 64) == 512 + name && BytesInPlace(data, 544 + name, p.symbol)
            && OffsetAt(data, 480) == 544 + name + symbol && OffsetAt(data, 576 + name + symbol) == |p.vesting|
            && forall i | 0 <= i < |p.vesting| :: VestingInPlace(data, 608 + name + symbol + 128 * i, p.vesting[i])
  {
    hide Encode, Word, ToNat, Pow256, PaddedLength, HeadAt, At, SymbolOffset, VestingOffset, EncodeBytes, EncodeVestings,
      VestingInPlace, BytesInPlace;
    var data := Encode(p);
    TotalLength(p);
    Layout(p);
    SizesFit(p);
    OffsetsDecode(p);
    BytesAtPlace(data, 512, p.name);
    BytesAtPlace(data, 32 + SymbolOffset(p), p.symbol);
    WordAt(data, 32 + VestingOffset(p), |p.vesting|);
    forall i | 0 <= i < |p.vesting|
      ensures VestingInPlace(data, 64 + VestingOffset(p) + 128 * i, p.vesting[i])
    {
      VestingsInPlace(data, 64 + VestingOffset(p), p.vesting, i);
    }
  }

  // ---- the checks of the signer ---------------------------------------------------------------

  /** The checks that make signing fail. */
  predicate SignerAccepts(data: seq<Byte>) {
    && |data| >= 32
    && OffsetAt(data, 0) % U64 == 32
    && |data| >= 32 + 64
  }

  /** The offset a warning is printed for. */
  predicate SymbolOffsetUnusual(data: seq<Byte>)
    requires |data| >= 96
  {
    OffsetAt(data, 64) % U64 < 544 || OffsetAt(data, 64) % U64 > 1000
  }

  /** Outer offset 32, name offset exactly 480, symbol offset 512 plus the padded name length. */
  lemma OffsetsAreFixed(p: Params)
    requires Encodable(p)
    ensures var data := Encode(p);
            && |data| >= 96
            && OffsetAt(data, 0) == 32
            && OffsetAt(data, 32) == 480
            && OffsetAt(data, 64) == 512 + PaddedLength(|p.name|)
  {
    hide Encode, Word, ToNat;
    OffsetsDecode(p);
    assert SymbolOffset(p) == 512 + PaddedLength(|p.name|) by {
      assert |EncodeBytes(p.name)| == 32 + PaddedLength(|p.name|);
    }
  }

  /** The signer never refuses its own encoding. */
  lemma SignerAcceptsEncodings(p: Params)
    requires Encodable(p)
    ensures SignerAccepts(Encode(p))
  {
    hide Encode, ToNat;
    OffsetsAreFixed(p);
  }

  lemma WarningRange(n: nat)
    requires n < U64 / 2
    ensures (512 + PaddedLength(n)) % U64 == 512 + PaddedLength(n)
    ensures 544 <= 512 + PaddedLength(n) <= 1000 <==> 0 < n <= 480
  {
  }

  /** The symbol warning appears exactly for an empty name or one longer than 480 bytes. */
  lemma SymbolWarningExactly(p: Params)
    requires Encodable(p)
    ensures |Encode(p)| >= 96
    ensures SymbolOffsetUnusual(Encode(p)) <==> |p.name| == 0 || |p.name| > 480
  {
    hide Encode, OffsetAt, PaddedLength;
    OffsetsAreFixed(p);
    WarningRange(|p.name|);
  }
}
