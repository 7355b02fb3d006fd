/** The small records that open most accounts: the serum account-flags word and the
8-byte mango metadata header (record type, version, initialised flag, padding).
 */
module Header {
  import opened Wrappers
  import opened LittleEndian
  import opened Adapters

  // ---------------------------------------------------------------- bits

  /** The low n bits of x, least significant first. */
  function BitsLE(x: nat, n: nat): (bits: seq<bool>)
    ensures |bits| == n
  {
    if n == 0 then [] else [x % 2 == 1] + BitsLE(x / 2, n - 1)
  }

  /** The integer whose binary digits, least significant first, are `bits`. */
  function FromBitsLE(bits: seq<bool>): (x: nat)
    ensures x < Pow2(|bits|)
  {
    if |bits| == 0 then 0 else (if bits[0] then 1 else 0) + 2 * FromBitsLE(bits[1..])
  }

  lemma {:induction false} BitsOfFromBits(bits: seq<bool>)
    ensures BitsLE(FromBitsLE(bits), |bits|) == bits
  {
    if |bits| > 0 {
      var x := FromBitsLE(bits);
      assert x % 2 == 1 <==> bits[0];
      assert x / 2 == FromBitsLE(bits[1..]);
      BitsOfFromBits(bits[1..]);
    }
  }

  /** Adding a multiple of 2^n does not change the low n bits. */
  lemma {:induction false} BitsIgnoreHigh(x: nat, y: nat, n: nat)
    ensures BitsLE(x + Pow2(n) * y, n) == BitsLE(x, n)
  {
    if n > 0 {
      var p := Pow2(n - 1);
      assert Pow2(n) * y == 2 * (p * y);
      assert (x + Pow2(n) * y) % 2 == x % 2;
      assert (x + Pow2(n) * y) / 2 == x / 2 + p * y;
      BitsIgnoreHigh(x / 2, y, n - 1);
    }
  }

  // ---------------------------------------------------------------- account flags

  /** The eight serum account flags, in bit order 0..7. */
  datatype AccountFlags = AccountFlags(
    initialized: bool,
    market: bool,
    openOrders: bool,
    requestQueue: bool,
    eventQueue: bool,
    bids: bool,
    asks: bool,
    disabled: bool)
  {
    /** The flags in bit order: flag k is the one whose mask is 1 << k. */
    function Bits(): seq<bool>
    {
      [initialized, market, openOrders, requestQueue, eventQueue, bids, asks, disabled]
    }
  }

  const ACCOUNT_FLAGS_SIZE: nat := 8

  /** The number of flags, which is also the number of low bits they occupy. */
  const FLAG_COUNT: nat := 8

  function FlagsOfBits(b: seq<bool>): (f: AccountFlags)
    requires |b| == FLAG_COUNT
    ensures f.Bits() == b
  {
    AccountFlags(b[0], b[1], b[2], b[3], b[4], b[5], b[6], b[7])
  }

  /** The flags word at p: flag k is bit k of its first byte (the word is little-endian). */
  function AccountFlagsAt(s: seq<byte>, p: nat): AccountFlags
    requires p + ACCOUNT_FLAGS_SIZE <= |s|
  {
    FlagsOfBits(BitsLE(s[p], FLAG_COUNT))
  }

  /** The 8-byte flags word: eight flags in the low bits, the other 56 bits reserved. */
  function DecodeAccountFlags(s: seq<byte>, pos: nat): (r: Parsed<AccountFlags>)
    ensures r.Success? <==> pos + ACCOUNT_FLAGS_SIZE <= |s|
    ensures r.Success? ==> r.value == Decoded(AccountFlagsAt(s, pos), pos + ACCOUNT_FLAGS_SIZE)
    ensures r.Failure? ==> r.error == TruncatedInput(pos, ACCOUNT_FLAGS_SIZE)
  {
    if pos + ACCOUNT_FLAGS_SIZE <= |s| then Success(Decoded(AccountFlagsAt(s, pos), pos + ACCOUNT_FLAGS_SIZE))
    else Failure(TruncatedInput(pos, ACCOUNT_FLAGS_SIZE))
  }

  /** Flag k of the decoded word is bit k of the 64-bit little-endian integer. */
  lemma AccountFlagsAreLowBits(s: seq<byte>, pos: nat)
    requires pos + ACCOUNT_FLAGS_SIZE <= |s|
    ensures AccountFlagsAt(s, pos).Bits() == BitsLE(UIntLE(s[pos..pos + ACCOUNT_FLAGS_SIZE]), FLAG_COUNT)
  {
    LowByteBits(s[pos..pos + ACCOUNT_FLAGS_SIZE]);
  }

  /** The low eight bits of a window are the bits of its first byte. */
  lemma LowByteBits(w: seq<byte>)
    requires |w| > 0
    ensures BitsLE(UIntLE(w), FLAG_COUNT) == BitsLE(w[0], FLAG_COUNT)
  {
    assert Pow2(FLAG_COUNT) == 256;
    BitsIgnoreHigh(w[0], UIntLE(w[1..]), FLAG_COUNT);
  }

  /** Encoding the flags word: the flag bits, reserved bits zero. */
  function BuildAccountFlags(f: AccountFlags): (b: seq<byte>)
    ensures |b| == ACCOUNT_FLAGS_SIZE
    ensures UIntLE(b) == FromBitsLE(f.Bits())
  {
    var low := FromBitsLE(f.Bits());
    var b := [low] + Zeros(7);
    assert b[1..] == Zeros(7);
    ZerosDenoteZero(7);
    b
  }

  /** Flags survive encoding then decoding. */
  lemma AccountFlagsRoundTrip(f: AccountFlags)
    ensures DecodeAccountFlags(BuildAccountFlags(f), 0) == Success(Decoded(f, ACCOUNT_FLAGS_SIZE))
  {
    var b := BuildAccountFlags(f);
    BitsOfFromBits(f.Bits());
    assert AccountFlagsAt(b, 0).Bits() == f.Bits();
  }

  /** Decoding then encoding keeps the flag bits and clears the reserved ones. */
  lemma AccountFlagsWindowRoundTrip(s: seq<byte>, pos: nat)
    requires pos + ACCOUNT_FLAGS_SIZE <= |s|
    ensures BuildAccountFlags(DecodeAccountFlags(s, pos).value.value) == [s[pos]] + Zeros(7)
  {
    var f := AccountFlagsAt(s, pos);
    assert Pow2(FLAG_COUNT) == 256;
    FromBitsOfBits(s[pos], FLAG_COUNT);
    assert FromBitsLE(f.Bits()) == s[pos];
  }

  lemma {:induction false} FromBitsOfBits(x: nat, n: nat)
    requires x < Pow2(n)
    ensures FromBitsLE(BitsLE(x, n)) == x
  {
    if n > 0 {
      var b := BitsLE(x, n);
      assert b[1..] == BitsLE(x / 2, n - 1);
      FromBitsOfBits(x / 2, n - 1);
    }
  }

  // ---------------------------------------------------------------- metadata

  /** The record-type tag of a mango account; unnamed codes are kept as numbers. */
  datatype DataType =
    | Group | Account | RootBank | NodeBank | PerpMarket | Bids | Asks | Cache | EventQueue
    | Unnamed(code: byte)

  /** The name of a data-type code; codes past the last name stay numbers. */
  function DataTypeOf(code: byte): (d: DataType)
    ensures d.Unnamed? <==> code > 8
    ensures d.Unnamed? ==> d.code == code
  {
    match code
    case 0 => Group
    case 1 => Account
    case 2 => RootBank
    case 3 => NodeBank
    case 4 => PerpMarket
    case 5 => Bids
    case 6 => Asks
    case 7 => Cache
    case 8 => EventQueue
    case _ => Unnamed(code)
  }

  function CodeOf(d: DataType): byte
  {
    match d
    case Group => 0
    case Account => 1
    case RootBank => 2
    case NodeBank => 3
    case PerpMarket => 4
    case Bids => 5
    case Asks => 6
    case Cache => 7
    case EventQueue => 8
    case Unnamed(code) => code
  }

  /** A data type as decoding produces it: named codes are never left unnamed. */
  predicate Canonical(d: DataType)
  {
    d.Unnamed? ==> d.code > 8
  }

  /** Every code decodes, and encoding the decoded type gives the code back. */
  lemma DataTypeCodeRoundTrip(code: byte)
    ensures Canonical(DataTypeOf(code)) && CodeOf(DataTypeOf(code)) == code
  {
  }

  /** Every canonical data type survives encoding then decoding. */
  lemma DataTypeRoundTrip(d: DataType)
    requires Canonical(d)
    ensures DataTypeOf(CodeOf(d)) == d
  {
  }

  datatype MetaData = MetaData(dataType: DataType, version: nat, isInitialized: nat)

  const METADATA_SIZE: nat := 1 + 1 + 1 + 5

  /** The header at p, once the eight bytes are known to be there. */
  function MetaDataAt(s: seq<byte>, p: nat): MetaData
    requires p + METADATA_SIZE <= |s|
  {
    MetaData(DataTypeOf(s[p]), s[p + 1], s[p + 2])
  }

  /** The 8-byte header: one-byte type code, version and initialised flag, then 5 bytes
      of padding that must be present but are not looked at. */
  function DecodeMetaData(s: seq<byte>, pos: nat): (r: Parsed<MetaData>)
    ensures r.Success? <==> pos + METADATA_SIZE <= |s|
    ensures r.Success? ==> r.value.next == pos + METADATA_SIZE
    ensures r.Success? ==> Canonical(r.value.value.dataType) && CodeOf(r.value.value.dataType) == s[pos]
    ensures r.Success? ==> r.value.value.version == s[pos + 1] && r.value.value.isInitialized == s[pos + 2]
    ensures r.Success? ==> r.value == Decoded(MetaDataAt(s, pos), pos + METADATA_SIZE)
    ensures r.Failure? ==> r.error == TruncatedInput(pos, METADATA_SIZE)
  {
    if pos + METADATA_SIZE <= |s| then
      DataTypeCodeRoundTrip(s[pos]);
      Success(Decoded(MetaDataAt(s, pos), pos + METADATA_SIZE))
    else Failure(TruncatedInput(pos, METADATA_SIZE))
  }

  /** Encoding the header: three one-byte fields then five zero bytes. */
  function BuildMetaData(m: MetaData): (r: Result<seq<byte>, Error>)
    ensures r.Success? <==> m.version < 256 && m.isInitialized < 256
    ensures r.Success? ==> |r.value| == METADATA_SIZE && r.value[3..] == Zeros(5)
  {
    var version :- BuildUInt(m.version, 1);
    var isInitialized :- BuildUInt(m.isInitialized, 1);
    Success([CodeOf(m.dataType)] + version + isInitialized + Zeros(5))
  }

  /** A canonical header survives encoding then decoding. */
  lemma MetaDataRoundTrip(m: MetaData)
    requires Canonical(m.dataType) && m.version < 256 && m.isInitialized < 256
    ensures BuildMetaData(m).Success?
    ensures DecodeMetaData(BuildMetaData(m).value, 0) == Success(Decoded(m, METADATA_SIZE))
  {
    var b := BuildMetaData(m).value;
    UIntRoundTrip(m.version, 1);
    UIntRoundTrip(m.isInitialized, 1);
    var version := BuildUInt(m.version, 1).value;
    var isInitialized := BuildUInt(m.isInitialized, 1).value;
    assert b[1] == version[0] && b[2] == isInitialized[0];
    assert UIntLE(version) == version[0] && UIntLE(isInitialized) == isInitialized[0];
  }

  /** Decoding then encoding a header keeps its three fields and zeroes the padding. */
  lemma MetaDataWindowRoundTrip(s: seq<byte>, pos: nat)
    requires pos + METADATA_SIZE <= |s|
    ensures BuildMetaData(DecodeMetaData(s, pos).value.value) == Success(s[pos..pos + 3] + Zeros(5))
  {
    var m := DecodeMetaData(s, pos).value.value;
    DataTypeCodeRoundTrip(s[pos]);
    var version := BuildUInt(m.version, 1).value;
    var isInitialized := BuildUInt(m.isInitialized, 1).value;
    assert UIntLE(version) == version[0] && UIntLE(isInitialized) == isInitialized[0];
    assert version == [s[pos + 1]] && isInitialized == [s[pos + 2]];
    assert s[pos..pos + 3] == [s[pos]] + version + isInitialized;
  }
}
