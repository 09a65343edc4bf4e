/**
  The byte strings that are hashed and signed, put together by hand from fixed-width parts.
 */
module Preimages {
  import opened Common
  import opened Bytes
  import opened AbiLayout

  // ---- what is signed -------------------------------------------------------------------------

  /** `abi.encodePacked(data, CHAIN_ID, address)`. `FillBytes` writes the absolute value. */
  function SignedPreimage(data: seq<Byte>, chainId: int, contract: Address): seq<Byte> {
    data + Word(Abs(chainId)) + contract
  }

  predicate IsInt64(x: int) { -(U64 / 2) <= x < U64 / 2 }

  /** The buffer of the signer, appended to piece by piece. */
  method PackForSigning(encoded: seq<Byte>, chainId: int, contract: Address) returns (packed: seq<Byte>)
    requires IsInt64(chainId)
    ensures packed == SignedPreimage(encoded, chainId, contract)
    ensures |packed| == |encoded| + 52
    ensures packed[..|encoded|] == encoded
    ensures ToNat(packed[|encoded|..|encoded| + 32]) == Abs(chainId)
    ensures packed[|encoded| + 32..] == contract
  {
    SignedLayout(encoded, chainId, contract);
    packed := [];
    packed := packed + encoded;
    var chainIdBytes := FillBytes(Abs(chainId), 32);
    packed := packed + chainIdBytes;
    packed := packed + contract;
  }

  /** First the data, then the 32-byte chain id, then the contract. */
  lemma SignedLayout(data: seq<Byte>, chainId: int, contract: Address)
    requires IsInt64(chainId)
    ensures var s, n := SignedPreimage(data, chainId, contract), |data|;
            && |s| == n + 52
            && s[..n] == data && ToNat(s[n..n + 32]) == Abs(chainId) && s[n + 32..] == contract
  {
    hide ToNat, Pow256, BigEndian;
    SmallFits(32);
    WordReads(Abs(chainId));
    Cut3(data, Word(Abs(chainId)), contract);
  }

  lemma Cut3(a: seq<Byte>, b: seq<Byte>, c: seq<Byte>)
    ensures var s := a + b + c; s[..|a|] == a && s[|a|..|a| + |b|] == b && s[|a| + |b|..] == c
  {
  }

  /** `big.Int.FillBytes`: digits from the last byte to the first. */
  method FillBytes(v: nat, n: nat) returns (s: seq<Byte>)
    ensures s == BigEndian(v, n)
  {
    var buf := new Byte[n](i => 0);
    var rest, i := v, n;
    while i > 0
      invariant 0 <= i <= n
      invariant BigEndian(v, n) == BigEndian(rest, i) + buf[i..]
    {
      i := i - 1;
      buf[i] := rest % 256;
      assert buf[i..] == [rest % 256] + buf[i + 1..];
      rest := rest / 256;
    }
    s := buf[..];
  }

  /** Two signed preimages are equal exactly when data and contract are, and the chain ids up to their sign. */
  lemma SignedPreimageDetermines(data1: seq<Byte>, chain1: int, contract1: Address,
                                 data2: seq<Byte>, chain2: int, contract2: Address)
    requires IsInt64(chain1) && IsInt64(chain2)
    ensures SignedPreimage(data1, chain1, contract1) == SignedPreimage(data2, chain2, contract2)
       <==> data1 == data2 && Abs(chain1) == Abs(chain2) && contract1 == contract2
  {
    hide Word;
    SameTail(data1 + Word(Abs(chain1)), contract1, data2 + Word(Abs(chain2)), contract2);
    SameTail(data1, Word(Abs(chain1)), data2, Word(Abs(chain2)));
    SmallFits(32);
    if Word(Abs(chain1)) == Word(Abs(chain2)) {
      WordInjective(Abs(chain1), Abs(chain2));
    }
  }

  /** What is signed determines every parameter, the chain and the contract. */
  lemma SignatureCoversParams(p: Params, chain1: int, contract1: Address, q: Params, chain2: int, contract2: Address)
    requires Encodable(p) && Encodable(q)
    requires 1 <= chain1 < U64 / 2 && 1 <= chain2 < U64 / 2
    ensures SignedPreimage(Encode(p), chain1, contract1) == SignedPreimage(Encode(q), chain2, contract2)
       <==> p == q && chain1 == chain2 && contract1 == contract2
  {
    hide Encode, SignedPreimage;
    SignedPreimageDetermines(Encode(p), chain1, contract1, Encode(q), chain2, contract2);
    EncodeInjective(p, q);
  }

  // ---- request ids ----------------------------------------------------------------------------

  function RequestIdPreimage(prefix: seq<Byte>, creator: Address, timestamp: Uint64, nonce: Uint64): seq<Byte> {
    prefix + creator + Word(timestamp) + Word(nonce)
  }

  /** `GenerateRequestID` up to the hash. */
  method BuildRequestIdPreimage(prefix: seq<Byte>, creator: Address, timestamp: Uint64, nonce: Uint64) returns (data: seq<Byte>)
    ensures data == RequestIdPreimage(prefix, creator, timestamp, nonce)
    ensures |data| == |prefix| + 84
    ensures data[..|prefix|] == prefix && data[|prefix|..|prefix| + 20] == creator
    ensures ToNat(data[|prefix| + 20..|prefix| + 52]) == timestamp && ToNat(data[|prefix| + 52..]) == nonce
  {
    RequestIdLayout(prefix, creator, timestamp, nonce);
    data := prefix;
    data := data + creator;
    var timestampBytes := FillBytes(timestamp, 32);
    data := data + timestampBytes;
    var nonceBytes := FillBytes(nonce, 32);
    data := data + nonceBytes;
  }

  /** First the prefix, then the creator, then timestamp and nonce as 32-byte words. */
  lemma RequestIdLayout(prefix: seq<Byte>, creator: Address, timestamp: Uint64, nonce: Uint64)
    ensures var s, n := RequestIdPreimage(prefix, creator, timestamp, nonce), |prefix|;
            && |s| == n + 84
            && s[..n] == prefix && s[n..n + 20] == creator
            && ToNat(s[n + 20..n + 52]) == timestamp && ToNat(s[n + 52..]) == nonce
  {
    hide ToNat, Pow256, BigEndian;
    SmallFits(32);
    WordReads(timestamp);
    WordReads(nonce);
    Cut3(prefix + creator, Word(timestamp), Word(nonce));
    Cut3(prefix, creator, Word(timestamp) + Word(nonce));
    assert RequestIdPreimage(prefix, creator, timestamp, nonce) == prefix + creator + (Word(timestamp) + Word(nonce));
  }

  /** The request-id preimage determines prefix, creator, timestamp and nonce. */
  lemma RequestIdDetermines(prefix1: seq<Byte>, creator1: Address, timestamp1: Uint64, nonce1: Uint64,
                            prefix2: seq<Byte>, creator2: Address, timestamp2: Uint64, nonce2: Uint64)
    ensures RequestIdPreimage(prefix1, creator1, timestamp1, nonce1) == RequestIdPreimage(prefix2, creator2, timestamp2, nonce2)
       <==> prefix1 == prefix2 && creator1 == creator2 && timestamp1 == timestamp2 && nonce1 == nonce2
  {
    hide Word;
    SameTail(prefix1 + creator1 + Word(timestamp1), Word(nonce1), prefix2 + creator2 + Word(timestamp2), Word(nonce2));
    SameTail(prefix1 + creator1, Word(timestamp1), prefix2 + creator2, Word(timestamp2));
    SameTail(prefix1, creator1, prefix2, creator2);
    SmallFits(32);
    if Word(nonce1) == Word(nonce2) {
      WordInjective(nonce1, nonce2);
    }
    if Word(timestamp1) == Word(timestamp2) {
      WordInjective(timestamp1, timestamp2);
    }
  }

  // ---- salts ----------------------------------------------------------------------------------

  /** Preimage of `calculateSalt`: name and symbol are packed without a length or a separator. */
  function SaltPreimage(name: seq<Byte>, symbol: seq<Byte>, totalSupply: Uint256, core: Address,
                        timestamp: Uint64, nonce: Uint64): seq<Byte> {
    name + symbol + Word(totalSupply) + core + Word(timestamp) + Word(nonce)
  }

  /** First name and symbol, then the supply as a word, the core contract, and timestamp and nonce as words. */
  lemma SaltLayout(name: seq<Byte>, symbol: seq<Byte>, totalSupply: Uint256, core: Address, timestamp: Uint64, nonce: Uint64)
    ensures var s, n := SaltPreimage(name, symbol, totalSupply, core, timestamp, nonce), |name| + |symbol|;
            && |s| == n + 116
            && s[..|name|] == name && s[|name|..n] == symbol
            && ToNat(s[n..n + 32]) == totalSupply && s[n + 32..n + 52] == core
            && ToNat(s[n + 52..n + 84]) == timestamp && ToNat(s[n + 84..]) == nonce
  {
    hide ToNat, Pow256, BigEndian;
    var s := SaltPreimage(name, symbol, totalSupply, core, timestamp, nonce);
    RequestIdLayout(name + symbol + Word(totalSupply), core, timestamp, nonce);
    WordReads(totalSupply);
    var rest := core + Word(timestamp) + Word(nonce);
    Cut3(name + symbol, Word(totalSupply), rest);
    assert s == name + symbol + Word(totalSupply) + rest;
    Cut3(name, symbol, Word(totalSupply) + rest);
    assert s == name + symbol + (Word(totalSupply) + rest);
  }

  /** The salt preimage determines everything but the place where the name ends and the symbol begins. */
  lemma SaltDetermines(name1: seq<Byte>, symbol1: seq<Byte>, supply1: Uint256, core1: Address, timestamp1: Uint64, nonce1: Uint64,
                       name2: seq<Byte>, symbol2: seq<Byte>, supply2: Uint256, core2: Address, timestamp2: Uint64, nonce2: Uint64)
    ensures SaltPreimage(name1, symbol1, supply1, core1, timestamp1, nonce1)
         == SaltPreimage(name2, symbol2, supply2, core2, timestamp2, nonce2)
       <==> name1 + symbol1 == name2 + symbol2 && supply1 == supply2 && core1 == core2
            && timestamp1 == timestamp2 && nonce1 == nonce2
  {
    hide Word;
    var a1, a2 := name1 + symbol1, name2 + symbol2;
    RequestIdDetermines(a1 + Word(supply1), core1, timestamp1, nonce1, a2 + Word(supply2), core2, timestamp2, nonce2);
    SameTail(a1, Word(supply1), a2, Word(supply2));
    if Word(supply1) == Word(supply2) {
      WordInjective(supply1, supply2);
    }
  }

  /** So moving a letter from the symbol to the name keeps the salt. */
  lemma SaltIgnoresTheBorder(core: Address, timestamp: Uint64, nonce: Uint64, supply: Uint256)
    ensures SaltPreimage([1], [2, 3], supply, core, timestamp, nonce) == SaltPreimage([1, 2], [3], supply, core, timestamp, nonce)
  {
    assert [1] + [2, 3] == [1, 2] + [3];
  }

  // ---- preparing the tuple --------------------------------------------------------------------

  /** A vesting entry as callers give it; amounts may be nil. */
  datatype VestingInput = VestingInput(amount: Option<Uint256>, launchTime: Option<Uint256>, duration: Option<Uint256>, mode: Byte)

  /** The loop that fills the vesting slice by index. */
  method FillVesting(input: seq<VestingInput>) returns (data: array<Vesting>)
    ensures fresh(data) && data.Length == |input|
    ensures forall i :: 0 <= i < |input| ==>
      && data[i].amount == (if input[i].amount.None? then 0 else input[i].amount.value)
      && data[i].launchTime == (if input[i].launchTime.None? then 0 else input[i].launchTime.value)
      && data[i].duration == (if input[i].duration.None? then 0 else input[i].duration.value)
      && data[i].mode == input[i].mode
  {
    data := new Vesting[|input|](i => Vesting(0, 0, 0, 0));
    for n := 0 to |input|
      invariant forall i :: 0 <= i < n ==>
        && data[i].amount == (if input[i].amount.None? then 0 else input[i].amount.value)
        && data[i].launchTime == (if input[i].launchTime.None? then 0 else input[i].launchTime.value)
        && data[i].duration == (if input[i].duration.None? then 0 else input[i].duration.value)
        && data[i].mode == input[i].mode
    {
      var v := input[n];
      var amount: Uint256 := 0;
      if v.amount.Some? {
        amount := v.amount.value;
      }
      var launchTime: Uint256 := 0;
      if v.launchTime.Some? {
        launchTime := v.launchTime.value;
      }
      var duration: Uint256 := 0;
      if v.duration.Some? {
        duration := v.duration.value;
      }
      data[n] := Vesting(amount, launchTime, duration, v.mode);
    }
  }
}
