/** Instruction envelopes: a u32 little-endian variant followed by the variant's
argument record.

The variant is read on its own first and looked up in a table of the 24 variants
the program knows. A variant past the table is unknown; a variant the table maps
to no parser is known but not decoded here; otherwise the parser reads the whole
envelope again, checking the variant as its leading constant, then its argument
fields one after another. Every argument field is a fixed-width integer.
 */
module Instructions {
  import opened Wrappers
  import opened LittleEndian
  import opened Adapters

  // ---------------------------------------------------------------- argument fields

  type FieldWidth = n: nat | n > 0 witness 1

  /** One argument field: an unsigned or a two's-complement integer of a given width. */
  datatype Field = U(width: FieldWidth) | S(width: FieldWidth)

  /** The values a field can hold. */
  predicate Fits(f: Field, v: int)
  {
    match f
    case U(n) => 0 <= v < Pow256(n)
    case S(n) => -SignedBound(n) <= v < SignedBound(n)
  }

  /** One value per field, each within its field's range. */
  predicate FieldsFit(fs: seq<Field>, vs: seq<int>)
    decreases |fs|
  {
    |fs| == |vs| && (|fs| == 0 || (Fits(fs[0], vs[0]) && FieldsFit(fs[1..], vs[1..])))
  }

  /** The bytes a list of fields takes. */
  function TotalWidth(fs: seq<Field>): nat
  {
    if |fs| == 0 then 0 else fs[0].width + TotalWidth(fs[1..])
  }

  /** The value a field's window denotes. */
  function FieldValue(f: Field, w: seq<byte>): int
  {
    if f.U? then UIntLE(w) else SIntLE(w)
  }

  /** The window a value takes in a field: its little-endian encoding, signed or
      unsigned. A value outside the field's range has no encoding (`BuildField` rejects
      it); the zero window stands in for it so that every value has a window. */
  function FieldBytes(f: Field, v: int): (w: seq<byte>)
    ensures |w| == f.width
  {
    if !Fits(f, v) then Zeros(f.width)
    else if f.U? then ToLE(v, f.width)
    else ToSLE(v, f.width)
  }

  /** Fields laid out one after another from pos, each window read by `value`. */
  function ValuesIn(value: (Field, seq<byte>) -> int, s: seq<byte>, pos: nat, fs: seq<Field>): (vs: seq<int>)
    requires pos + TotalWidth(fs) <= |s|
    ensures |vs| == |fs|
    decreases |fs|
  {
    if |fs| == 0 then []
    else [value(fs[0], s[pos..pos + fs[0].width])] + ValuesIn(value, s, pos + fs[0].width, fs[1..])
  }

  /** Values written one after another, each by `bytes`. */
  function BytesOf(bytes: (Field, int) -> seq<byte>, fs: seq<Field>, vs: seq<int>): seq<byte>
    requires |fs| == |vs|
    decreases |fs|
  {
    if |fs| == 0 then [] else bytes(fs[0], vs[0]) + BytesOf(bytes, fs[1..], vs[1..])
  }

  /** `bytes` writes a window of the field's width, from which `value` reads back every
      in-range value. */
  ghost predicate ReadsBack(value: (Field, seq<byte>) -> int, bytes: (Field, int) -> seq<byte>)
  {
    && (forall f: Field, v: int :: |bytes(f, v)| == f.width)
    && (forall f: Field, v: int :: Fits(f, v) ==> value(f, bytes(f, v)) == v)
  }

  /** `bytes` writes the value of every window of a field's width back as the same window. */
  ghost predicate WritesBack(value: (Field, seq<byte>) -> int, bytes: (Field, int) -> seq<byte>)
  {
    forall f: Field, w: seq<byte> :: |w| == f.width ==> bytes(f, value(f, w)) == w
  }

  /** Every window of a field's width denotes a value in the field's range. */
  ghost predicate InRange(value: (Field, seq<byte>) -> int)
  {
    forall f: Field, w: seq<byte> :: |w| == f.width ==> Fits(f, value(f, w))
  }

  /** The argument values in a window. */
  function FieldsAt(s: seq<byte>, pos: nat, fs: seq<Field>): seq<int>
    requires pos + TotalWidth(fs) <= |s|
  {
    ValuesIn(FieldValue, s, pos, fs)
  }

  /** The bytes of argument values. */
  function Encode(fs: seq<Field>, vs: seq<int>): (e: seq<byte>)
    requires |fs| == |vs|
    ensures |e| == TotalWidth(fs)
  {
    FieldCodecHolds();
    BytesOfWidth(FieldBytes, fs, vs);
    BytesOf(FieldBytes, fs, vs)
  }

  /** The unsigned and signed little-endian integers read back what they write, and
      write back what they read. */
  lemma FieldCodecHolds()
    ensures ReadsBack(FieldValue, FieldBytes) && WritesBack(FieldValue, FieldBytes) && InRange(FieldValue)
  {
    forall f: Field, v: int | Fits(f, v)
      ensures FieldValue(f, FieldBytes(f, v)) == v
    {
      if f.U? {
        UIntOfToLE(v, f.width);
      } else {
        SIntOfToSLE(v, f.width);
      }
    }
    forall f: Field, w: seq<byte> | |w| == f.width
      ensures Fits(f, FieldValue(f, w)) && FieldBytes(f, FieldValue(f, w)) == w
    {
      if f.U? {
        ToLEOfUInt(w);
      } else {
        ToSLEOfSInt(w);
      }
    }
  }

  /** Under any codec, the values written in order read back in order, wherever the
      bytes sit in the input. */
  lemma {:induction false} ValuesInBytesOf(value: (Field, seq<byte>) -> int, bytes: (Field, int) -> seq<byte>,
                                           fs: seq<Field>, vs: seq<int>, s: seq<byte>, pos: nat)
    requires ReadsBack(value, bytes) && FieldsFit(fs, vs) && pos + TotalWidth(fs) <= |s|
    requires s[pos..pos + TotalWidth(fs)] == BytesOf(bytes, fs, vs)
    ensures ValuesIn(value, s, pos, fs) == vs
    decreases |fs|
  {
    if |fs| > 0 {
      var next := pos + fs[0].width;
      BytesOfWidth(bytes, fs[1..], vs[1..]);
      WindowSplit(s, pos, bytes(fs[0], vs[0]), BytesOf(bytes, fs[1..], vs[1..]));
      ValuesInBytesOf(value, bytes, fs[1..], vs[1..], s, next);
      assert vs == [vs[0]] + vs[1..];
    }
  }

  /** Under any codec, the values read from a window write back to exactly its bytes. */
  lemma {:induction false} BytesOfValuesIn(value: (Field, seq<byte>) -> int, bytes: (Field, int) -> seq<byte>,
                                           s: seq<byte>, pos: nat, fs: seq<Field>)
    requires WritesBack(value, bytes) && pos + TotalWidth(fs) <= |s|
    ensures BytesOf(bytes, fs, ValuesIn(value, s, pos, fs)) == s[pos..pos + TotalWidth(fs)]
    decreases |fs|
  {
    if |fs| > 0 {
      assert TotalWidth(fs) == fs[0].width + TotalWidth(fs[1..]);
      BytesOfValuesIn(value, bytes, s, pos + fs[0].width, fs[1..]);
      BytesOfValuesInStep(value, bytes, s, pos, fs);
    } else {
      assert s[pos..pos] == [];
    }
  }

  /** The inductive step of `BytesOfValuesIn`: the first field's window, then the rest. */
  lemma BytesOfValuesInStep(value: (Field, seq<byte>) -> int, bytes: (Field, int) -> seq<byte>,
                            s: seq<byte>, pos: nat, fs: seq<Field>)
    requires WritesBack(value, bytes) && |fs| > 0 && pos + TotalWidth(fs) <= |s|
    requires BytesOf(bytes, fs[1..], ValuesIn(value, s, pos + fs[0].width, fs[1..]))
             == s[pos + fs[0].width..pos + TotalWidth(fs)]
    ensures BytesOf(bytes, fs, ValuesIn(value, s, pos, fs)) == s[pos..pos + TotalWidth(fs)]
  {
    var next, end := pos + fs[0].width, pos + TotalWidth(fs);
    var vs := ValuesIn(value, s, pos, fs);
    ValuesInCons(value, s, pos, fs);
    assert next <= end;
    var w := s[pos..next];
    assert |w| == fs[0].width;
    assert bytes(fs[0], vs[0]) == w;
    assert BytesOf(bytes, fs, vs) == w + BytesOf(bytes, fs[1..], vs[1..]);
    WindowJoin(s, pos, next, end);
  }

  /** The first value read, then the values of the fields after it. */
  lemma ValuesInCons(value: (Field, seq<byte>) -> int, s: seq<byte>, pos: nat, fs: seq<Field>)
    requires |fs| > 0 && pos + TotalWidth(fs) <= |s|
    ensures var vs := ValuesIn(value, s, pos, fs);
      vs[0] == value(fs[0], s[pos..pos + fs[0].width]) && vs[1..] == ValuesIn(value, s, pos + fs[0].width, fs[1..])
  {
  }

  /** Under a reader whose windows denote in-range values, every value read is in range. */
  lemma {:induction false} ValuesInFit(value: (Field, seq<byte>) -> int, s: seq<byte>, pos: nat, fs: seq<Field>)
    requires InRange(value) && pos + TotalWidth(fs) <= |s|
    ensures FieldsFit(fs, ValuesIn(value, s, pos, fs))
    decreases |fs|
  {
    if |fs| > 0 {
      var vs := ValuesIn(value, s, pos, fs);
      ValuesInFit(value, s, pos + fs[0].width, fs[1..]);
      assert vs[1..] == ValuesIn(value, s, pos + fs[0].width, fs[1..]);
    }
  }

  /** Under a codec, written values take the fields' total width. */
  lemma {:induction false} BytesOfWidth(bytes: (Field, int) -> seq<byte>, fs: seq<Field>, vs: seq<int>)
    requires (forall f: Field, v: int :: |bytes(f, v)| == f.width) && |fs| == |vs|
    ensures |BytesOf(bytes, fs, vs)| == TotalWidth(fs)
    decreases |fs|
  {
    if |fs| > 0 {
      BytesOfWidth(bytes, fs[1..], vs[1..]);
    }
  }

  /** A window holding a + b holds a, then b. */
  lemma WindowSplit<T>(s: seq<T>, pos: nat, a: seq<T>, b: seq<T>)
    requires pos + |a| + |b| <= |s| && s[pos..pos + |a| + |b|] == a + b
    ensures s[pos..pos + |a|] == a && s[pos + |a|..pos + |a| + |b|] == b
  {
    assert s[pos..pos + |a|] == (a + b)[..|a|];
    assert s[pos + |a|..pos + |a| + |b|] == (a + b)[|a|..];
  }

  /** Adjacent windows join into one. */
  lemma WindowJoin<T>(s: seq<T>, lo: nat, mid: nat, hi: nat)
    requires lo <= mid <= hi <= |s|
    ensures s[lo..hi] == s[lo..mid] + s[mid..hi]
    ensures lo == 0 ==> s[..hi] == s[lo..mid] + s[mid..hi]
  {
  }

  /** The two halves of a concatenation. */
  lemma ConcatHalves<T>(a: seq<T>, b: seq<T>)
    ensures (a + b)[..|a|] == a && (a + b)[0..|a|] == a && (a + b)[|a|..|a| + |b|] == b
  {
  }

  /** Encoded arguments read back as themselves, wherever the encoding sits in the input. */
  lemma FieldsAtEncode(fs: seq<Field>, vs: seq<int>, s: seq<byte>, pos: nat)
    requires FieldsFit(fs, vs) && pos + TotalWidth(fs) <= |s|
    requires s[pos..pos + TotalWidth(fs)] == Encode(fs, vs)
    ensures FieldsAt(s, pos, fs) == vs
  {
    FieldCodecHolds();
    ValuesInBytesOf(FieldValue, FieldBytes, fs, vs, s, pos);
  }

  /** The arguments in a window are in range and re-encode to exactly the window's bytes. */
  lemma EncodeFieldsAt(s: seq<byte>, pos: nat, fs: seq<Field>)
    requires pos + TotalWidth(fs) <= |s|
    ensures FieldsFit(fs, FieldsAt(s, pos, fs))
    ensures Encode(fs, FieldsAt(s, pos, fs)) == s[pos..pos + TotalWidth(fs)]
  {
    FieldCodecHolds();
    BytesOfValuesIn(FieldValue, FieldBytes, s, pos, fs);
    ValuesInFit(FieldValue, s, pos, fs);
  }

  /** One field read from the input; a window the input cuts short fails. */
  function ReadField(s: seq<byte>, pos: nat, f: Field): (r: Parsed<int>)
    ensures r.Success? <==> pos + f.width <= |s|
    ensures r.Success? ==> r.value == Decoded(FieldValue(f, s[pos..pos + f.width]), pos + f.width)
    ensures r.Failure? ==> r.error == TruncatedInput(pos, f.width)
  {
    match f
    case U(n) => ReadUInt(s, pos, n)
    case S(n) => ReadSInt(s, pos, n)
  }

  /** The fields read in order from pos; the first one the input cuts short fails,
      and otherwise the values are those laid out in the window. */
  function ReadFields(s: seq<byte>, pos: nat, fs: seq<Field>): (r: Parsed<seq<int>>)
    requires pos <= |s|
    ensures r.Success? <==> pos + TotalWidth(fs) <= |s|
    ensures r.Success? ==> r.value == Decoded(FieldsAt(s, pos, fs), pos + TotalWidth(fs))
    decreases |fs|
  {
    if |fs| == 0 then Success(Decoded([], pos))
    else
      var first :- ReadField(s, pos, fs[0]);
      var rest :- ReadFields(s, first.next, fs[1..]);
      Success(Decoded([first.value] + rest.value, rest.next))
  }

  /** One value encoded; a value out of its field's range fails. */
  function BuildField(f: Field, v: int): (r: Result<seq<byte>, Error>)
    ensures r.Success? <==> Fits(f, v)
    ensures r.Success? ==> r.value == FieldBytes(f, v)
  {
    if f.U? then BuildUInt(v, f.width) else BuildSInt(v, f.width)
  }

  /** The fields encoded in order; the first value out of its field's range fails,
      and otherwise the bytes are the values' encodings one after another. */
  function BuildFields(fs: seq<Field>, vs: seq<int>): (r: Result<seq<byte>, Error>)
    requires |fs| == |vs|
    ensures r.Success? <==> FieldsFit(fs, vs)
    ensures r.Success? ==> r.value == Encode(fs, vs)
    decreases |fs|
  {
    if |fs| == 0 then Success([])
    else
      var first :- BuildField(fs[0], vs[0]);
      var rest :- BuildFields(fs[1..], vs[1..]);
      Success(first + rest)
  }

  // ---------------------------------------------------------------- instructions

  /** The instruction kinds this layer decodes, one per argument-record parser. */
  datatype Kind =
    | InitMangoAccount | Deposit | Withdraw | PlaceSpotOrder | PlacePerpOrder
    | CancelPerpOrderByClientId | CancelPerpOrder | ConsumeEvents | SettleFunds | CancelSpotOrder
  {
    /** The variant the kind's parser requires as its leading constant. */
    function Variant(): nat
    {
      match this
      case InitMangoAccount => 1
      case Deposit => 2
      case Withdraw => 3
      case PlaceSpotOrder => 9
      case PlacePerpOrder => 12
      case CancelPerpOrderByClientId => 13
      case CancelPerpOrder => 14
      case ConsumeEvents => 15
      case SettleFunds => 19
      case CancelSpotOrder => 20
    }

    /** The argument fields after the variant, in order:
          Deposit: quantity
          Withdraw: quantity, allow_borrow
          PlaceSpotOrder: side, limit_price, max_base_quantity, max_quote_quantity,
            self_trade_behavior, order_type, client_id, limit
          PlacePerpOrder: price, quantity (both signed), client_order_id, side, order_type
          CancelPerpOrderByClientId: client_order_id
          CancelPerpOrder: order_id, side
          ConsumeEvents: limit
          CancelSpotOrder: side, order_id */
    function Fields(): seq<Field>
    {
      match this
      case InitMangoAccount => []
      case Deposit => [U(8)]
      case Withdraw => [U(8), U(1)]
      case PlaceSpotOrder => [U(4), U(8), U(8), U(8), U(4), U(4), U(8), U(2)]
      case PlacePerpOrder => [S(8), S(8), U(8), U(1), U(1)]
      case CancelPerpOrderByClientId => [U(8)]
      case CancelPerpOrder => [U(16), U(4)]
      case ConsumeEvents => [U(8)]
      case SettleFunds => []
      case CancelSpotOrder => [U(4), U(16)]
    }

    /** The argument record's whole width: variant plus arguments. */
    function Size(): nat
    {
      VARIANT_SIZE + TotalWidth(Fields())
    }
  }

  const VARIANT_SIZE: nat := 4

  /** A decoded instruction: its kind and its argument values in field order. */
  datatype Instruction = Instruction(kind: Kind, args: seq<int>)

  /** One argument value per field of the kind, each within its field's range. */
  predicate Encodable(i: Instruction)
  {
    FieldsFit(i.kind.Fields(), i.args)
  }

  /** The arguments in a window are within their fields' ranges. */
  lemma FieldsAtFit(s: seq<byte>, pos: nat, fs: seq<Field>)
    requires pos + TotalWidth(fs) <= |s|
    ensures FieldsFit(fs, FieldsAt(s, pos, fs))
  {
    FieldCodecHolds();
    ValuesInFit(FieldValue, s, pos, fs);
  }

  /** One argument record: the variant constant, then the fields. Trailing bytes are
      not looked at. */
  function Parse(k: Kind, s: seq<byte>, pos: nat): (r: Parsed<Instruction>)
    ensures r.Success? <==>
      pos + k.Size() <= |s| && UIntLE(s[pos..pos + VARIANT_SIZE]) == k.Variant()
    ensures r.Success? ==> r.value.next == pos + k.Size() && r.value.value.kind == k
    ensures r.Success? ==> r.value.value.args == FieldsAt(s, pos + VARIANT_SIZE, k.Fields())
    ensures r.Success? ==> Encodable(r.value.value)
    ensures pos + VARIANT_SIZE <= |s| && UIntLE(s[pos..pos + VARIANT_SIZE]) != k.Variant() ==>
      r == Failure(ConstantMismatch(pos, k.Variant(), UIntLE(s[pos..pos + VARIANT_SIZE])))
  {
    var _ :- ReadConstUInt(s, pos, VARIANT_SIZE, k.Variant());
    var args :- ReadFields(s, pos + VARIANT_SIZE, k.Fields());
    FieldsAtFit(s, pos + VARIANT_SIZE, k.Fields());
    Success(Decoded(Instruction(k, args.value), args.next))
  }

  /** The variant finder: the first four bytes as a u32 little-endian. */
  function DecodeVariant(s: seq<byte>): (r: Parsed<nat>)
    ensures r.Success? <==> VARIANT_SIZE <= |s|
    ensures r.Success? ==> r.value == Decoded(UIntLE(s[..VARIANT_SIZE]), VARIANT_SIZE)
    ensures r.Failure? ==> r.error == TruncatedInput(0, VARIANT_SIZE)
  {
    var w :- ReadBytes(s, 0, VARIANT_SIZE);
    Success(Decoded(UIntLE(w.value), w.next))
  }

  /** The variant depends on the first four bytes alone. */
  lemma VariantReadsOnlyPrefix(s: seq<byte>, t: seq<byte>)
    requires VARIANT_SIZE <= |s| && VARIANT_SIZE <= |t| && s[..VARIANT_SIZE] == t[..VARIANT_SIZE]
    ensures DecodeVariant(s) == DecodeVariant(t)
  {
  }

  const VARIANT_COUNT: nat := 24

  /** What the table holds for a variant. */
  datatype Entry = Missing | NoParser | Registered(kind: Kind)

  /** The parser table: 24 known variants, ten of them with a parser. */
  function Lookup(variant: nat): (e: Entry)
    ensures e.Missing? <==> variant >= VARIANT_COUNT
    ensures e.Registered? ==> e.kind.Variant() == variant
  {
    if variant >= VARIANT_COUNT then Missing
    else if variant == 1 then Registered(InitMangoAccount)
    else if variant == 2 then Registered(Deposit)
    else if variant == 3 then Registered(Withdraw)
    else if variant == 9 then Registered(PlaceSpotOrder)
    else if variant == 12 then Registered(PlacePerpOrder)
    else if variant == 13 then Registered(CancelPerpOrderByClientId)
    else if variant == 14 then Registered(CancelPerpOrder)
    else if variant == 15 then Registered(ConsumeEvents)
    else if variant == 19 then Registered(SettleFunds)
    else if variant == 20 then Registered(CancelSpotOrder)
    else NoParser
  }

  /** The table's keys are exactly 0..23; the ones without a parser are exactly
      0, 4-8, 10, 11, 16-18 and 21-23. */
  lemma TableEntries(variant: nat)
    ensures Lookup(variant).Missing? <==> variant >= VARIANT_COUNT
    ensures Lookup(variant).NoParser? <==>
      variant in {0, 4, 5, 6, 7, 8, 10, 11, 16, 17, 18, 21, 22, 23}
  {
  }

  /** Every registered parser sits under the variant it checks for, and under no other. */
  lemma TableMatchesConstants(variant: nat, k: Kind)
    ensures Lookup(variant) == Registered(k) <==> variant == k.Variant()
  {
  }

  /** What decoding an envelope yields: a decoded instruction, or a variant the table
      knows but has no parser for. */
  datatype Envelope = Known(instruction: Instruction) | Unsupported(variant: nat)

  /** An instruction envelope: find the variant, look it up, parse with its parser. */
  function DecodeInstruction(s: seq<byte>): (r: Result<Envelope, Error>)
    ensures |s| < VARIANT_SIZE ==> r == Failure(TruncatedInput(0, VARIANT_SIZE))
    ensures VARIANT_SIZE <= |s| && UIntLE(s[..VARIANT_SIZE]) >= VARIANT_COUNT ==>
      r == Failure(UnknownInstruction(UIntLE(s[..VARIANT_SIZE])))
    ensures VARIANT_SIZE <= |s| && Lookup(UIntLE(s[..VARIANT_SIZE])).NoParser? ==>
      r == Success(Unsupported(UIntLE(s[..VARIANT_SIZE])))
    ensures r.Success? && r.value.Known? ==>
      VARIANT_SIZE <= |s| && Lookup(UIntLE(s[..VARIANT_SIZE])) == Registered(r.value.instruction.kind)
      && r.value.instruction.kind.Size() <= |s| && Encodable(r.value.instruction)
  {
    var v :- DecodeVariant(s);
    match Lookup(v.value)
    case Missing => Failure(UnknownInstruction(v.value))
    case NoParser => Success(Unsupported(v.value))
    case Registered(k) =>
      assert s[0..VARIANT_SIZE] == s[..VARIANT_SIZE];
      var d :- Parse(k, s, 0);
      Success(Known(d.value))
  }

  /** A registered variant hands the whole envelope to its parser: the envelope decodes
      to what the parser makes of it, and fails as the parser fails. */
  lemma DecodeRegistered(s: seq<byte>, k: Kind)
    requires VARIANT_SIZE <= |s| && Lookup(UIntLE(s[..VARIANT_SIZE])) == Registered(k)
    ensures Parse(k, s, 0).Success? ==> DecodeInstruction(s) == Success(Known(Parse(k, s, 0).value.value))
    ensures Parse(k, s, 0).Failure? ==> DecodeInstruction(s) == Failure(Parse(k, s, 0).error)
  {
    assert s[0..VARIANT_SIZE] == s[..VARIANT_SIZE];
  }

  /** Decoding through the table never trips a parser's variant constant: the only way a
      registered variant fails is an envelope shorter than its argument record. */
  lemma DispatchNeverMismatches(s: seq<byte>)
    requires VARIANT_SIZE <= |s| && Lookup(UIntLE(s[..VARIANT_SIZE])).Registered?
    ensures var k := Lookup(UIntLE(s[..VARIANT_SIZE])).kind;
      DecodeInstruction(s).Success? <==> k.Size() <= |s|
  {
    var k := Lookup(UIntLE(s[..VARIANT_SIZE])).kind;
    assert s[0..VARIANT_SIZE] == s[..VARIANT_SIZE];
    TableMatchesConstants(UIntLE(s[..VARIANT_SIZE]), k);
    DecodeRegistered(s, k);
  }

  /** The widths of the argument records, variant included. */
  lemma InstructionSizes()
    ensures InitMangoAccount.Size() == 4 && SettleFunds.Size() == 4
    ensures Deposit.Size() == 12 && Withdraw.Size() == 13
    ensures PlaceSpotOrder.Size() == 50 && PlacePerpOrder.Size() == 30
    ensures CancelPerpOrderByClientId.Size() == 12 && CancelPerpOrder.Size() == 24
    ensures ConsumeEvents.Size() == 12 && CancelSpotOrder.Size() == 24
  {
  }

  /** The place-spot-order fields end at 8, 16, 24, 32, 36, 40, 48 and 50. */
  lemma PlaceSpotOrderOffsets()
    ensures EndOffsets(VARIANT_SIZE, PlaceSpotOrder.Fields()) == [8, 16, 24, 32, 36, 40, 48, 50]
  {
  }

  /** Where each field ends, fields laid out one after another from `start`. */
  function EndOffsets(start: nat, fs: seq<Field>): (ends: seq<nat>)
    ensures |ends| == |fs|
    ensures |fs| > 0 ==> ends[|fs| - 1] == start + TotalWidth(fs)
    decreases |fs|
  {
    if |fs| == 0 then [] else [start + fs[0].width] + EndOffsets(start + fs[0].width, fs[1..])
  }

  // ---------------------------------------------------------------- encoding

  /** An envelope: the variant as a u32, then the arguments; an argument list that does
      not match the kind's fields, or an argument out of its field's range, fails. */
  function BuildInstruction(i: Instruction): (r: Result<seq<byte>, Error>)
    ensures r.Success? <==> Encodable(i)
    ensures r.Success? ==> |r.value| == i.kind.Size()
  {
    if |i.args| != |i.kind.Fields()| then Failure(ArgumentCountMismatch(|i.kind.Fields()|, |i.args|))
    else
      var variant := BuildUInt(i.kind.Variant(), VARIANT_SIZE).value;
      var args :- BuildFields(i.kind.Fields(), i.args);
      Success(variant + args)
  }

  /** An encodable instruction's envelope: its variant's encoding, then its arguments'. */
  lemma BuildInstructionParts(i: Instruction)
    requires Encodable(i)
    ensures BuildInstruction(i) == Success(BuildUInt(i.kind.Variant(), VARIANT_SIZE).value
                                           + Encode(i.kind.Fields(), i.args))
  {
  }

  /** An envelope holding a kind's variant and then encoded arguments parses back to
      those arguments. */
  lemma ParseEncoded(k: Kind, vs: seq<int>, s: seq<byte>)
    requires FieldsFit(k.Fields(), vs) && k.Size() <= |s|
    requires UIntLE(s[..VARIANT_SIZE]) == k.Variant()
    requires s[VARIANT_SIZE..k.Size()] == Encode(k.Fields(), vs)
    ensures Parse(k, s, 0) == Success(Decoded(Instruction(k, vs), k.Size()))
  {
    ParseAtStart(k, s);
    FieldsAtEncode(k.Fields(), vs, s, VARIANT_SIZE);
  }

  /** A record at the start of the input whose bytes remain and whose constant matches
      parses, up to the end of the record. */
  lemma ParseSucceedsAtStart(k: Kind, s: seq<byte>)
    requires k.Size() <= |s| && UIntLE(s[..VARIANT_SIZE]) == k.Variant()
    ensures Parse(k, s, 0).Success? && Parse(k, s, 0).value.next == k.Size()
  {
    assert s[0..VARIANT_SIZE] == s[..VARIANT_SIZE];
  }

  /** A record at the start of the input whose bytes remain and whose constant matches
      parses to its fields. */
  lemma ParseAtStart(k: Kind, s: seq<byte>)
    requires k.Size() <= |s| && UIntLE(s[..VARIANT_SIZE]) == k.Variant()
    ensures VARIANT_SIZE + TotalWidth(k.Fields()) <= |s|
    ensures Parse(k, s, 0) == Success(Decoded(Instruction(k, FieldsAt(s, VARIANT_SIZE, k.Fields())), k.Size()))
  {
    ParseSucceedsAtStart(k, s);
    var d := Parse(k, s, 0).value;
    assert d.value.kind == k;
    assert d.value == Instruction(k, d.value.args);
  }

  /** Every encodable instruction decodes back to itself. */
  lemma InstructionRoundTrip(i: Instruction)
    requires Encodable(i)
    ensures BuildInstruction(i).Success?
    ensures DecodeInstruction(BuildInstruction(i).value) == Success(Known(i))
  {
    var k := i.kind;
    BuildInstructionParts(i);
    var variant := BuildUInt(k.Variant(), VARIANT_SIZE).value;
    var s := BuildInstruction(i).value;
    ConcatHalves(variant, Encode(k.Fields(), i.args));
    ParseEncoded(k, i.args, s);
    TableMatchesConstants(k.Variant(), k);
    DecodeRegistered(s, k);
  }

  /** What a parser decodes encodes back to exactly the bytes of its argument record. */
  lemma ParseWindowRoundTrip(k: Kind, s: seq<byte>)
    requires Parse(k, s, 0).Success?
    ensures BuildInstruction(Parse(k, s, 0).value.value) == Success(s[..k.Size()])
  {
    var i := Parse(k, s, 0).value.value;
    BuildInstructionParts(i);
    EncodeFieldsAt(s, VARIANT_SIZE, k.Fields());
    VariantReencodes(s[0..VARIANT_SIZE], k.Variant());
    WindowJoin(s, 0, VARIANT_SIZE, k.Size());
  }

  /** A decoded instruction encodes back to exactly the bytes of its argument record. */
  lemma InstructionWindowRoundTrip(s: seq<byte>)
    requires DecodeInstruction(s).Success? && DecodeInstruction(s).value.Known?
    ensures var i := DecodeInstruction(s).value.instruction;
      BuildInstruction(i) == Success(s[..i.kind.Size()])
  {
    var k := DecodeInstruction(s).value.instruction.kind;
    DecodeRegistered(s, k);
    ParseWindowRoundTrip(k, s);
  }

  /** The variant's encoding is the only four-byte window that denotes it. */
  lemma VariantReencodes(prefix: seq<byte>, variant: nat)
    requires |prefix| == VARIANT_SIZE && UIntLE(prefix) == variant
    ensures BuildUInt(variant, VARIANT_SIZE) == Success(prefix)
  {
    UIntLEInjective(BuildUInt(variant, VARIANT_SIZE).value, prefix);
  }
}
