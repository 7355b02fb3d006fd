# Mango account layouts, modelled in Dafny

This project models the binary codec in `mango/layouts/layouts.py`. That file describes, with
the Python `construct` library, how mango and serum on-chain accounts, order-book nodes,
perp events and mango instructions are laid out as bytes. The model keeps the byte-level
meaning of each layout and drops the library machinery. Every decoder is a pure function
from an input `seq<byte>` and a start position to a `Result` holding the decoded value and
the position after it, or an `Error` saying why it stopped.

The modules follow the layers of the file:

- `LittleEndian` (`little_endian.dfy`) is the arithmetic of `BytesInteger(n, swapped=True)`.
  It covers unsigned and two's-complement little-endian integers of any width, with both
  round trips.
- `Adapters` (`adapters.dfy`) holds the adapters:
  - `DecimalAdapter` and `SignedDecimalAdapter`;
  - `PublicKeyAdapter`, where 32 zero bytes mean "absent";
  - `FloatAdapter` and `FloatI80F48Adapter`, as exact binary fixed-point values;
  - `DatetimeAdapter`, as raw seconds that fail past the last date a `datetime` holds;
  - `BookPriceAdapter`, the three facets of a 16-byte order key;
  - `Flag`, `Const` and `Padding`.
- `Header` (`header.dfy`) holds `ACCOUNT_FLAGS`, whose eight flags are bits 0–7 of a u64,
  and `DATA_TYPE` plus `METADATA`.
- `Records` (`records.dfy`) holds every fixed-shape struct: token account, open orders,
  group and its token/spot/perp tables, root and node banks, perp open orders, perp account,
  mango account and perp market. Each decoder states every field at its cumulative offset.
  The records whose fields can all be encoded also have encoders, with round trips.
- `OrderBook` (`book.dfy`) holds the 88-byte node union dispatched on its u32 tag, and
  `ORDERBOOK_SIDE` with its 1024 nodes.
- `Events` (`events.dfy`) holds the 152-byte fill/out/unknown event union and
  `PERP_EVENT_QUEUE`. A type-0 event whose timestamp is out of range is not a fill, and
  the selection falls through to the unknown layout.
- `Instructions` (`instructions.dfy`) holds the variant finder, the ten instruction
  argument records and the 24-entry parser table. It also has an encoder whose round trip
  with the decoder is proved in both directions.

`Wrappers` (`wrappers.dfy`) supplies `Result`, `Option` and the `:-` plumbing.

## Model

| member | source | states |
|---|---|---|
| LittleEndian.UIntOfToLE | mango/layouts/layouts.py:52-61 | an unsigned integer below 256^n encoded in n little-endian bytes decodes back to itself |
| LittleEndian.ToLEOfUInt | mango/layouts/layouts.py:52-61 | every byte window is the encoding of the integer it denotes, so decoding loses nothing |
| LittleEndian.UIntLEInjective | mango/layouts/layouts.py:52-61 | two windows of one width denoting the same unsigned integer are equal |
| LittleEndian.UIntLEConcat | mango/layouts/layouts.py:198-212 | the low part of a split window counts as itself and the high part is scaled by 256^(low width) |
| LittleEndian.SIntLERange | mango/layouts/layouts.py:110-119 | a signed n-byte window denotes a value in [-256^n/2, 256^n/2) |
| LittleEndian.SIntOfToSLE | mango/layouts/layouts.py:110-119 | every integer in the signed range survives two's-complement encoding then decoding |
| LittleEndian.ToSLEOfSInt | mango/layouts/layouts.py:110-119 | every non-empty window survives signed decoding then encoding |
| LittleEndian.SIntNegativeIffTopBit | mango/layouts/layouts.py:110-119 | a signed window is negative exactly when the top bit of its last byte is set |
| Adapters.ReadBytes | mango/layouts/layouts.py:127-131 | a raw byte field succeeds exactly when n bytes remain, and yields those bytes; otherwise it reports where it stopped |
| Adapters.Skip | mango/layouts/layouts.py:290-295 | padding succeeds exactly when its bytes are present, and moves past them |
| Adapters.ReadUInt | mango/layouts/layouts.py:52-58 | DecimalAdapter(n) succeeds exactly when n bytes remain, and yields their unsigned little-endian value |
| Adapters.ReadSInt | mango/layouts/layouts.py:110-115 | SignedDecimalAdapter(n) succeeds exactly when n bytes remain, and yields their two's-complement value |
| Adapters.BuildUInt | mango/layouts/layouts.py:59-61 | unsigned encoding succeeds exactly for integers in [0, 256^n), giving n bytes that denote the integer; others fail as out of range |
| Adapters.BuildSInt | mango/layouts/layouts.py:117-119 | signed encoding succeeds exactly in the two's-complement range, giving n bytes that denote the integer |
| Adapters.UIntRoundTrip | mango/layouts/layouts.py:52-61 | decode(encode(x)) == x for every in-range unsigned x |
| Adapters.UIntWindowRoundTrip | mango/layouts/layouts.py:52-61 | encode(decode(window)) gives back the unsigned window |
| Adapters.SIntRoundTrip | mango/layouts/layouts.py:110-119 | decode(encode(x)) == x for every x in the signed range |
| Adapters.SIntWindowRoundTrip | mango/layouts/layouts.py:110-119 | encode(decode(window)) gives back every non-empty signed window |
| Adapters.SIntSign | mango/layouts/layouts.py:110-115 | a decoded signed field is negative exactly when its top bit is set |
| Adapters.ReadKey | mango/layouts/layouts.py:127-134 | a key field needs 32 bytes; it is absent exactly when they are all zero, and otherwise equals them |
| Adapters.BuildKey | mango/layouts/layouts.py:136-137 | a present key encodes as 32 bytes; an absent key has no encoding |
| Adapters.KeyRoundTrip | mango/layouts/layouts.py:127-137 | decode(encode(k)) == k for every non-zero key |
| Adapters.KeyWindowRoundTrip | mango/layouts/layouts.py:127-137 | a non-zero key window survives decoding then encoding |
| Adapters.ZeroKeyReadsAbsent | mango/layouts/layouts.py:131-137 | the all-zero key encodes, but reads back as absent |
| Adapters.ReadFixed | mango/layouts/layouts.py:85-100 | a fixed-point field needs its bytes and denotes their unsigned value over 2^fractionBits |
| Adapters.ReadFloat | mango/layouts/layouts.py:85-100 | FloatAdapter(size) yields the unsigned value over 2^(4·size), the point in the middle of the bits |
| Adapters.FloatZero | mango/layouts/layouts.py:85-100 | all-zero bytes of any width denote 0 |
| Adapters.FloatOne | mango/layouts/layouts.py:85-100 | at width 2k, the integer 256^k denotes exactly 1 (at 16 bytes, 2^64 is 1) |
| Adapters.FixedUnit | mango/layouts/layouts.py:85-100 | a raw integer equal to the divisor denotes exactly one, so value·2^k equals the raw integer |
| Adapters.ReadI80F48 | mango/layouts/layouts.py:165-180 | FloatI80F48Adapter as written: 16 bytes read unsigned, over 2^48, never negative |
| Adapters.ReadI80F48Signed | mango/layouts/layouts.py:158-180 | the I80F48 read as the signed 80.48 type it is: 16 bytes in two's complement over 2^48 |
| Adapters.I80F48Sign | mango/layouts/layouts.py:158-180 | a signed I80F48 is negative exactly when the top bit of its last byte is set |
| Adapters.I80F48AllOnesSign | mango/layouts/layouts.py:165-180 | sixteen 0xFF bytes read as (2^128 − 1)/2^48 by the source, but as −2^−48 by the signed type |
| Adapters.I80F48Readings | mango/layouts/layouts.py:165-180 | the signed reading equals the unsigned reading of the source when the last byte is below 128, and is 2^128 less when it is 128 or more |
| Adapters.ReadTimestamp | mango/layouts/layouts.py:145-150 | a timestamp succeeds exactly when 8 bytes remain and their u64 value is at most 253402300799 seconds (the last second of year 9999, in UTC), and yields that value; otherwise it fails with a truncation error or with an out-of-range error carrying the seconds |
| Adapters.MaxTimestampIsEndOfYear9999 | mango/layouts/layouts.py:145-150 | the bound is one second before 1 January 10000, counted in whole Gregorian days from 1970 |
| Adapters.TimestampLimits | mango/layouts/layouts.py:145-150 | every 8-byte window up to the bound decodes, and eight 0xFF bytes do not |
| Adapters.ReadOrderKey | mango/layouts/layouts.py:198-212 | an order key needs 16 bytes: order_id is the u128 of all of them, sequence_number the u64 of bytes 0–7, price the u64 of bytes 8–15, and order_id = price·2^64 + sequence_number |
| Adapters.OrderKeyHalves | mango/layouts/layouts.py:202-207 | a 16-byte value is its high 8 bytes scaled by 2^64 plus its low 8 bytes |
| Adapters.OrderKeyOfOrderId | mango/layouts/layouts.py:202-212 | price and sequence number are the quotient and remainder of order_id by 2^64 |
| Adapters.OrderKeyExample | mango/layouts/layouts.py:198-212 | sequence 7 below and price 500 above give order id 500·2^64 + 7 |
| Adapters.BuildOrderKey | mango/layouts/layouts.py:215-217 | an order key has no encoding |
| Adapters.ReadFlag | mango/layouts/layouts.py:896 | a flag needs one byte and is true exactly when the byte is non-zero |
| Adapters.BuildFlag | mango/layouts/layouts.py:896 | a flag encodes as one byte that reads back as the same flag |
| Adapters.ReadConstUInt | mango/layouts/layouts.py:1005 | a constant field succeeds exactly when present and equal to the constant; a different value fails with both values named |
| Adapters.ReadConstByte | mango/layouts/layouts.py:894 | a one-byte constant succeeds exactly when the byte equals it; otherwise it reports the byte found |
| Header.BitsOfFromBits | mango/layouts/layouts.py:272-284 | the bits of the integer built from a bit list are that list |
| Header.FromBitsOfBits | mango/layouts/layouts.py:272-284 | the integer built from the low n bits of x is x, for x below 2^n |
| Header.DecodeAccountFlags | mango/layouts/layouts.py:272-284 | the flags word needs 8 bytes and yields the flags read at that position |
| Header.AccountFlagsAreLowBits | mango/layouts/layouts.py:272-284 | flag k (initialized, market, …, disabled) is bit k of the 64-bit little-endian word, as in the mirrored enum's 1 << k |
| Header.LowByteBits | mango/layouts/layouts.py:272-284 | the eight flag bits all come from the word's first byte |
| Header.BuildAccountFlags | mango/layouts/layouts.py:272-284 | encoding writes 8 bytes whose u64 value has exactly the flag bits set |
| Header.AccountFlagsRoundTrip | mango/layouts/layouts.py:272-284 | every set of flags survives encoding then decoding |
| Header.AccountFlagsWindowRoundTrip | mango/layouts/layouts.py:272-284 | decoding then encoding keeps the flag byte and zeroes the 56 reserved bits |
| Header.DataTypeCodeRoundTrip | mango/layouts/layouts.py:329-330 | every code decodes to a data type (named for 0–8) that encodes back to the code |
| Header.DataTypeRoundTrip | mango/layouts/layouts.py:329-330 | every data type decoding can produce survives encoding then decoding |
| Header.DataTypeOf | mango/layouts/layouts.py:329-330 | codes 0–8 get their names; any other code stays unnamed and keeps its number |
| Header.DecodeMetaData | mango/layouts/layouts.py:347-352 | the header needs 8 bytes; the data type, version and is_initialized are bytes 0, 1 and 2 |
| Header.BuildMetaData | mango/layouts/layouts.py:347-352 | a header with one-byte version and flag encodes as 8 bytes ending in five zeros |
| Header.MetaDataRoundTrip | mango/layouts/layouts.py:347-352 | a header with a canonical data type survives encoding then decoding |
| Header.MetaDataWindowRoundTrip | mango/layouts/layouts.py:347-352 | decoding then encoding keeps the first three bytes and zeroes the padding |
| Records.TableElement | mango/layouts/layouts.py:318-319 | element i of a fixed-length array is the element read at offset i·width |
| Records.KeysLayout | mango/layouts/layouts.py:467 | an array of n keys has n elements, each what the key adapter reads at its own offset |
| Records.UIntsLayout | mango/layouts/layouts.py:318-319 | an array of n unsigned fields has n elements, each read at its own offset |
| Records.SIntsLayout | mango/layouts/layouts.py:559-560 | an array of n signed fields has n elements, each read at its own offset |
| Records.I80F48sLayout | mango/layouts/layouts.py:626-627 | an array of n I80F48 fields has n elements, each read at its own offset |
| Records.StrideFits | mango/layouts/layouts.py:318-319 | element i of an n-element array ends within the array |
| Records.BuildElements | mango/layouts/layouts.py:318-319 | array elements encode one after another, and the array has an encoding exactly when every element has one |
| Records.BuildArray | mango/layouts/layouts.py:318-319 | a fixed-length array has an encoding exactly when the list has that length and every element has an encoding; a list of another length fails with a length mismatch |
| Records.ElementsLength | mango/layouts/layouts.py:318-319 | elements that each encode to w bytes make an array of w bytes per element |
| Records.ElementsSlice | mango/layouts/layouts.py:318-319 | element i's encoding sits at offset i·w of the encoded array |
| Records.UIntsRoundTrip | mango/layouts/layouts.py:318-319 | an encoded unsigned array, read back where it sits, gives back the integers it encodes |
| Records.SIntsRoundTrip | mango/layouts/layouts.py:559-560 | an encoded signed array, read back where it sits, gives back the integers it encodes |
| Records.ElementsWindow | mango/layouts/layouts.py:318-319 | elements that each encode to the next w bytes of a window encode to the whole window |
| Records.UIntsWindowRoundTrip | mango/layouts/layouts.py:318-319 | an unsigned array read from a window encodes back to exactly that window |
| Records.SIntsWindowRoundTrip | mango/layouts/layouts.py:559-560 | a signed array read from a window encodes back to exactly that window |
| Records.DecodeTokenAccount | mango/layouts/layouts.py:290-295 | a token account succeeds exactly when 165 bytes remain and yields the record read there; otherwise it fails with a truncation error at its start |
| Records.TokenAccountLayout | mango/layouts/layouts.py:290-295 | mint, owner and amount sit at offsets 0, 32 and 64, each what its adapter reads |
| Records.BuildTokenAccount | mango/layouts/layouts.py:290-295 | encoding succeeds exactly when both keys are present and the amount fits a u64, giving 165 bytes |
| Records.TokenAccountRoundTrip | mango/layouts/layouts.py:290-295 | a token account with non-zero keys survives encoding then decoding |
| Records.DecodeOpenOrders | mango/layouts/layouts.py:305-320 | an open-orders account succeeds exactly when 3228 bytes remain and yields the record read there; otherwise it fails with a truncation error at its start |
| Records.OpenOrdersLayout | mango/layouts/layouts.py:305-320 | every field, including the 128-slot order and client-id arrays, sits at its cumulative offset |
| Records.BuildOpenOrders | mango/layouts/layouts.py:305-320 | an open-orders account has an encoding exactly when both keys are present, every balance, mask and id fits its field and both id arrays have 128 entries; the encoding is 3228 bytes |
| Records.OpenOrdersRoundTrip | mango/layouts/layouts.py:305-320 | an open-orders account with two non-zero keys and every number in range survives encoding then decoding |
| Records.OpenOrdersWindowRoundTrip | mango/layouts/layouts.py:305-320 | an account read from a window with two non-zero keys encodes back to the window, with the 5 leading bytes, the 7 reserved flag bytes and the 7 trailing bytes zeroed |
| Records.TokenInfosLayout | mango/layouts/layouts.py:464 | the group's token table has n slots, each a token info at offset 72·i |
| Records.DecodeTokenInfo | mango/layouts/layouts.py:368-373 | a token slot succeeds exactly when 72 bytes remain and yields the record read there; otherwise it fails with a truncation error at its start |
| Records.TokenInfoLayout | mango/layouts/layouts.py:368-373 | mint, root bank and decimals sit at offsets 0, 32 and 64 |
| Records.BuildTokenInfo | mango/layouts/layouts.py:368-373 | encoding succeeds exactly when both keys are present and decimals < 256, giving 72 bytes |
| Records.TokenInfoRoundTrip | mango/layouts/layouts.py:368-373 | a token slot with non-zero keys survives encoding then decoding |
| Records.TokenInfoWindowRoundTrip | mango/layouts/layouts.py:368-373 | decoding then encoding keeps the first 65 bytes and zeroes the padding |
| Records.SpotMarketInfosLayout | mango/layouts/layouts.py:465 | the group's spot-market table has n slots of 112 bytes |
| Records.DecodeSpotMarketInfo | mango/layouts/layouts.py:391-398 | a spot-market slot succeeds exactly when 112 bytes remain and yields the record read there; otherwise it fails with a truncation error at its start |
| Records.SpotMarketInfoLayout | mango/layouts/layouts.py:391-398 | the market key and five I80F48 fields sit at offsets 0, 32, 48, …, 96 |
| Records.PerpMarketInfosLayout | mango/layouts/layouts.py:466 | the group's perp-market table has n slots of 160 bytes |
| Records.DecodePerpMarketInfo | mango/layouts/layouts.py:419-430 | a perp-market slot succeeds exactly when 160 bytes remain and yields the record read there; otherwise it fails with a truncation error at its start |
| Records.PerpMarketInfoLayout | mango/layouts/layouts.py:419-430 | the key, seven I80F48 fields and two signed lot sizes sit at their cumulative offsets |
| Records.DecodeGroup | mango/layouts/layouts.py:461-477 | a group succeeds exactly when 11984 bytes remain and yields the record read there; otherwise it fails with a truncation error at its start |
| Records.GroupLayout | mango/layouts/layouts.py:461-477 | header, oracle count, the three tables, the oracles and the trailing keys sit at their cumulative offsets |
| Records.DecodeRootBank | mango/layouts/layouts.py:503-516 | a root bank succeeds exactly when 424 bytes remain and its update time at offset 352 is a representable date, and yields the record read there; a short input fails with a truncation error at its start and an out-of-range update time with a timestamp error at offset 352 |
| Records.RootBankLayout | mango/layouts/layouts.py:503-516 | every root-bank field, including the eight node-bank keys, sits at its cumulative offset; the update time is the u64 there, which the timestamp adapter yields when it accepts it |
| Records.DecodeNodeBank | mango/layouts/layouts.py:532-537 | a node bank succeeds exactly when 72 bytes remain and yields the record read there; otherwise it fails with a truncation error at its start |
| Records.NodeBankLayout | mango/layouts/layouts.py:532-537 | header, deposits, borrows and vault sit at offsets 0, 8, 24 and 40 |
| Records.DecodePerpOpenOrders | mango/layouts/layouts.py:554-561 | a perp open-orders record succeeds exactly when 792 bytes remain and yields the record read there; otherwise it fails with a truncation error at its start |
| Records.PerpOpenOrdersLayout | mango/layouts/layouts.py:554-561 | the totals, slot masks and the two 32-element arrays sit at their cumulative offsets |
| Records.BuildPerpOpenOrders | mango/layouts/layouts.py:554-561 | a perp orders block has an encoding exactly when both totals fit an i64, both masks a u32, and both id arrays have 32 entries that fit their signed widths; the encoding is 792 bytes |
| Records.PerpOpenOrdersRoundTrip | mango/layouts/layouts.py:554-561 | a perp orders block whose numbers fit survives encoding then decoding |
| Records.PerpOpenOrdersWindowRoundTrip | mango/layouts/layouts.py:554-561 | a perp orders block read from any 792-byte window encodes back to exactly that window |
| Records.PerpAccountsLayout | mango/layouts/layouts.py:630 | the account's perp table has n entries of 864 bytes |
| Records.DecodePerpAccount | mango/layouts/layouts.py:579-586 | a perp account succeeds exactly when 864 bytes remain and yields the record read there; otherwise it fails with a truncation error at its start |
| Records.PerpAccountLayout | mango/layouts/layouts.py:579-586 | every field, including the nested perp open orders at offset 56, sits at its cumulative offset |
| Records.DecodeMangoAccount | mango/layouts/layouts.py:621-635 | a mango account succeeds exactly when 28920 bytes remain and yields the record read there; otherwise it fails with a truncation error at its start |
| Records.MangoAccountLayout | mango/layouts/layouts.py:621-635 | every field, including the deposit, borrow, open-orders and perp-account arrays, sits at its cumulative offset |
| Records.DecodePerpMarket | mango/layouts/layouts.py:676-700 | a perp market succeeds exactly when 320 bytes remain and its update time at offset 192 is a representable date, and yields the record read there; a short input fails with a truncation error at its start and an out-of-range update time with a timestamp error at offset 192 |
| Records.PerpMarketLayout | mango/layouts/layouts.py:676-700 | the key and integer fields sit at their cumulative offsets; the update time is the u64 there, which the timestamp adapter yields when it accepts it |
| Records.PerpMarketFixedLayout | mango/layouts/layouts.py:676-700 | the I80F48 fields sit at their cumulative offsets |
| Records.RecordSizes | mango/layouts/layouts.py:290-700 | each record's width is the sum of its field widths (METADATA 8, TOKEN_INFO 72, NODE_BANK 72, …) |
| OrderBook.DecodeNode | mango/layouts/layouts.py:229-246 | a node succeeds exactly when 88 bytes remain, its u32 tag is at most 4 and, for a leaf, the timestamp at offset 80 is a representable date; its kind's tag is the tag read |
| OrderBook.DecodeNodeErrors | mango/layouts/layouts.py:229-246 | a short window fails with a truncation error, a tag above 4 with an unknown-variant error, and a leaf with an out-of-range timestamp with a timestamp error at offset 80 |
| OrderBook.LeafReadableIffTimestamp | mango/layouts/layouts.py:781-796 | a whole leaf node is readable exactly when the timestamp adapter accepts its timestamp |
| OrderBook.NodeConstantTagAgrees | mango/layouts/layouts.py:726-828 | the Const tag of the layout chosen by the dispatch reads back as the dispatched tag |
| OrderBook.NodeDispatch | mango/layouts/layouts.py:233-246 | tags 0, 1, 3 and 4 select exactly uninitialised, inner, free and last-free; tag 2 selects a leaf exactly when its timestamp is a representable date |
| OrderBook.InnerLayout | mango/layouts/layouts.py:747-755 | an inner node's prefix length, key and two children sit at offsets 4, 8 and 24, then padding to 88 |
| OrderBook.LeafLayout | mango/layouts/layouts.py:781-796 | a leaf's slot, key, owner, quantity, client id, best initial and timestamp sit at their offsets |
| OrderBook.FreeLayout | mango/layouts/layouts.py:811-828 | a free or last-free node's next link is the u32 after the tag, then padding to 88 |
| OrderBook.NodeSizes | mango/layouts/layouts.py:715-828 | every node layout is exactly 88 bytes |
| OrderBook.BuildNode | mango/layouts/layouts.py:248-250 | a node has no encoding |
| OrderBook.DecodeOrderbookSide | mango/layouts/layouts.py:851-859 | a book side succeeds exactly when its header is present and all 1024 nodes decode; the header fields sit at their offsets and node k is what DecodeNode reads at its offset; otherwise it fails at the first node that does not decode |
| OrderBook.AllNodesDecodeIff | mango/layouts/layouts.py:851-859 | all nodes decode exactly when the whole 90152-byte side is present, every tag is at most 4 and every leaf's timestamp is a representable date |
| OrderBook.OrderbookSideSize | mango/layouts/layouts.py:851-859 | the side is 40 header bytes plus 1024·88 node bytes |
| Events.DecodeFillEvent | mango/layouts/layouts.py:893-913 | a fill succeeds exactly when 152 bytes remain, the first is 0 and the timestamp at offset 72 is a representable date |
| Events.FillReadableIffTimestamp | mango/layouts/layouts.py:893-913 | of whole type-0 events, the fill layout accepts exactly those whose timestamp the timestamp adapter accepts |
| Events.DecodeOutEvent | mango/layouts/layouts.py:933-941 | an out event succeeds exactly when 152 bytes remain and the first is 1 |
| Events.DecodeUnknownEvent | mango/layouts/layouts.py:944-949 | the catch-all succeeds exactly when 152 bytes remain |
| Events.DecodeEvent | mango/layouts/layouts.py:974-975 | the fill, out, unknown selection succeeds exactly when 152 bytes remain, and otherwise reports a malformed event |
| Events.EventDispatch | mango/layouts/layouts.py:893-949 | a first byte of 0 is a fill exactly when its timestamp is a representable date, 1 is exactly an out event, and anything else, or a 0 with an out-of-range timestamp, is an unknown event that keeps the byte |
| Events.FillLayout | mango/layouts/layouts.py:893-913 | the fill's type, side, maker slot, flag, padding and maker half sit at their offsets |
| Events.FillTakerLayout | mango/layouts/layouts.py:905-913 | the taker half of a fill ends exactly at byte 152 |
| Events.OutLayout | mango/layouts/layouts.py:933-941 | the out event's fields sit at their offsets and the padding runs to byte 152 |
| Events.UnknownOwnerAlignsWithOut | mango/layouts/layouts.py:933-949 | whenever the selection yields an unknown event, its owner is the key at offset 8, where the out event's owner is |
| Events.EventSizes | mango/layouts/layouts.py:893-949 | the fill, out and unknown layouts are each exactly 152 bytes |
| Events.ReadEvents | mango/layouts/layouts.py:969-977 | n events read back to back succeed exactly when n·152 bytes remain, and event k is what the reader reads at offset 152·k |
| Events.ReadEventsFailsAtFirstCut | mango/layouts/layouts.py:969-977 | when n events do not fit, the failure is that of the first event the input cuts short |
| Events.RepeatUntilSeqNum | mango/layouts/layouts.py:973-974 | the source's loop reads and appends an event, then tests whether the count equals seq_num; it stops only on that equality or a failing read, so a success holds exactly seq_num events, begins with those already read, and needs fewer than seq_num of them to start with |
| Events.RepeatPastSeqNumFails | mango/layouts/layouts.py:973-974 | once the source's loop has read seq_num events or more without stopping, it can only fail |
| Events.RepeatReadsRemaining | mango/layouts/layouts.py:973-974 | below seq_num, the source's loop reads exactly the remaining events |
| Events.DecodeEventQueueAsWritten | mango/layouts/layouts.py:969-977 | the queue as the source decodes it fails on a short header |
| Events.DecodeEventQueue | mango/layouts/layouts.py:969-977 | a queue succeeds exactly when its header and seq_num events fit; its header fields are read at their offsets and event k is what DecodeEvent reads at offset 32 + 152·k |
| Events.QueueEventsAtOffsets | mango/layouts/layouts.py:969-977 | the events read for a body sit at 32 + 152·k from the queue's start |
| Events.QueueFailsAtFirstCut | mango/layouts/layouts.py:969-977 | a queue with a whole header fails at the first event the input cuts short |
| Events.SeqNumZeroNeverDecodes | mango/layouts/layouts.py:973-974 | with seq_num 0 the source's queue never decodes, while the header reading yields no events |
| Events.QueueDecodersAgree | mango/layouts/layouts.py:969-977 | with seq_num ≥ 1 the source's reading and the header reading agree |
| Events.RepeatAgreesWithReadEvents | mango/layouts/layouts.py:973-974 | from an empty list and seq_num ≥ 1, the do-while loop is the exact-count reading |
| Instructions.FieldCodecHolds | mango/layouts/layouts.py:1004-1011 | the unsigned and signed argument fields read back what they write, write back what they read, and read only in-range values |
| Instructions.ValuesInBytesOf | mango/layouts/layouts.py:1125-1136 | for any such field codec, argument values written one after another read back in order |
| Instructions.BytesOfValuesIn | mango/layouts/layouts.py:1125-1136 | for any such field codec, the values read from a window write back exactly its bytes |
| Instructions.ValuesInFit | mango/layouts/layouts.py:1125-1136 | every value read lies in its field's range |
| Instructions.FieldsAtEncode | mango/layouts/layouts.py:1125-1136 | encoded arguments read back as themselves wherever they sit in the input |
| Instructions.EncodeFieldsAt | mango/layouts/layouts.py:1125-1136 | the arguments in a window are in range and re-encode to exactly the window |
| Instructions.ReadField | mango/layouts/layouts.py:1007-1011 | one argument field succeeds exactly when its bytes remain, and yields their value |
| Instructions.ReadFields | mango/layouts/layouts.py:1125-1136 | argument fields read in order succeed exactly when all their bytes remain, and yield the values laid out in the window |
| Instructions.BuildField | mango/layouts/layouts.py:1007-1011 | one argument encodes exactly when it is in its field's range |
| Instructions.BuildFields | mango/layouts/layouts.py:1125-1136 | arguments encode exactly when every value fits its field |
| Instructions.Parse | mango/layouts/layouts.py:1004-1204 | an argument record succeeds exactly when its bytes remain and its leading u32 equals its variant; a different leading u32 fails as a constant mismatch |
| Instructions.DecodeVariant | mango/layouts/layouts.py:990-992 | the variant finder needs 4 bytes and yields their u32 little-endian value |
| Instructions.VariantReadsOnlyPrefix | mango/layouts/layouts.py:990-992 | the variant depends on the first 4 bytes alone |
| Instructions.TableEntries | mango/layouts/layouts.py:1206-1231 | the table has entries exactly for 0–23, and the ones without a parser are exactly 0, 4–8, 10, 11, 16–18 and 21–23 |
| Instructions.TableMatchesConstants | mango/layouts/layouts.py:1206-1231 | every registered parser sits under exactly the variant its Const checks |
| Instructions.Lookup | mango/layouts/layouts.py:1206-1231 | the table knows exactly the variants 0–23; every registered parser sits under its own variant |
| Instructions.DecodeInstruction | mango/layouts/layouts.py:990-1231 | a short input, a variant past the table and a variant without a parser each give their own outcome; a decoded instruction is registered under its variant and its arguments fit |
| Instructions.DecodeRegistered | mango/layouts/layouts.py:1206-1231 | a registered variant decodes or fails exactly as its parser does on the whole input |
| Instructions.DispatchNeverMismatches | mango/layouts/layouts.py:1206-1231 | through the table a parser's variant constant never mismatches: a registered variant fails only when the input is shorter than its record |
| Instructions.InstructionSizes | mango/layouts/layouts.py:1004-1204 | the ten argument records are 4, 12, 13, 50, 30, 12, 24, 12, 4 and 24 bytes |
| Instructions.PlaceSpotOrderOffsets | mango/layouts/layouts.py:1125-1136 | the place-spot-order fields end at 8, 16, 24, 32, 36, 40, 48 and 50 |
| Instructions.BuildInstruction | mango/layouts/layouts.py:1004-1204 | an instruction encodes exactly when its arguments fit its kind's fields, and the result is as wide as its record |
| Instructions.BuildInstructionParts | mango/layouts/layouts.py:1004-1204 | an instruction's encoding is its variant's u32 followed by its arguments' encoding |
| Instructions.ParseEncoded | mango/layouts/layouts.py:1004-1204 | a kind's variant followed by encoded arguments parses back to exactly those arguments |
| Instructions.InstructionRoundTrip | mango/layouts/layouts.py:990-1231 | every encodable instruction decodes back to itself through the variant finder and the table |
| Instructions.ParseWindowRoundTrip | mango/layouts/layouts.py:1004-1204 | what a parser decodes encodes back to exactly the bytes of its record |
| Instructions.InstructionWindowRoundTrip | mango/layouts/layouts.py:990-1231 | a decoded instruction encodes back to exactly the bytes of its record |
| Instructions.VariantReencodes | mango/layouts/layouts.py:990-992 | a variant's u32 encoding is the only 4-byte window that denotes it |

## Left out

- The `construct` machinery (`Adapter`, `Struct`, `Select` backtracking, `BitsSwapped`,
  `Computed`) is not modelled. Only the byte-level result of each layout is. A node's
  computed `type_name` becomes the constructor of `OrderBook.BookNode`.
- Python `Decimal` values and their context rounding are not modelled. Fixed-point
  fields are exact pairs of a raw integer and a binary exponent (`Fixed`), and their
  `Value()` is the exact real. The float exponent `2 ** fixed_point` is exact here.
- `DatetimeAdapter` decodes with `datetime.fromtimestamp`, which depends on the local
  timezone. The model keeps the raw u64 seconds (`Adapters.ReadTimestamp`). It takes the
  year-9999 limit of `datetime` in UTC (`Adapters.MAX_TIMESTAMP`). In another timezone the
  source's limit moves by that zone's offset from UTC. Lower limits that some C libraries
  put on `time_t` are not modelled either.
- The `PublicKey` class is an opaque 32-byte value.
- The `_encode` of `FloatAdapter`, `FloatI80F48Adapter` and `DatetimeAdapter` is not modelled.
  It returns `bytes(obj)`, which does not invert decoding. `BookPriceAdapter` and
  `OrderBookNodeAdapter` raise `NotImplementedError`, which is modelled as the failing
  `Adapters.BuildOrderKey` and `OrderBook.BuildNode`. Encoding an absent key fails
  (`Adapters.BuildKey`).
- Records.DecodeSpotMarketInfo reads its I80F48 fields with the signed reading, which is
  the corrected member of the first Findings row. The source reads them unsigned. The two
  readings differ by 2^128 exactly when a field's last byte is 128 or more
  (`Adapters.I80F48Readings`).
- Records.DecodePerpMarketInfo reads its I80F48 fields signed, as Records.DecodeSpotMarketInfo does.
- Records.DecodeGroup reads the I80F48 fields of its tables signed, as Records.DecodeSpotMarketInfo does.
- Records.DecodeRootBank reads its I80F48 fields signed, as Records.DecodeSpotMarketInfo does.
- Records.DecodeNodeBank reads its I80F48 fields signed, as Records.DecodeSpotMarketInfo does.
- Records.DecodePerpAccount reads its I80F48 fields signed, as Records.DecodeSpotMarketInfo does.
- Records.DecodeMangoAccount reads its I80F48 fields signed, as Records.DecodeSpotMarketInfo does.
- Records.DecodePerpMarket reads its I80F48 fields signed, as Records.DecodeSpotMarketInfo does.
- Adapters.BuildUInt and Adapters.BuildSInt fail with `IntegerOutOfRange` when a value
  does not fit its width. The source's encoders (mango/layouts/layouts.py:59-61 and 117-119) only call
  `int(obj)` and leave the rest to `construct`'s `BytesInteger`. Releases of `construct`
  with the range check raise an `IntegerError` there, which is what the model follows.
  Older releases write the value modulo 256^n instead. The source pins no release, so the
  "exactly when it fits" half of Instructions.BuildField, Instructions.BuildFields,
  Instructions.BuildInstruction, Records.BuildTokenAccount, Records.BuildOpenOrders and
  Records.BuildPerpOpenOrders rests on this choice.
- Only some records have encoders: the token account, open orders, token slot, metadata
  and perp open orders. Every other record holds a field whose encoder is not modelled
  (see above).
- Records.DecodeGroup and the other record decoders report a short input as one error
  naming the record's start and width. `construct` names the first field that runs out;
  success and failure agree either way.
- Events.DecodeEvent: when no layout of the selection accepts, the error is one
  `MalformedEvent` at the event's start, not the library's per-alternative errors.
- `head` and `count` of the event queue are decoded but not interpreted. The queue's
  physical capacity is never consulted, as in the source.
- Instructions.Parse yields argument values as integers in field order. The source yields a
  container of `Decimal` values keyed by field name. The field names are listed in
  `Kind.Fields`.
- Instructions.BuildInstruction takes positional arguments. An argument list whose length does
  not match the kind's fields fails with `ArgumentCountMismatch`. `construct` would raise on
  a missing name and ignore extra names.
- Instructions.FieldBytes gives out-of-range values the zero window, as a stand-in so that
  every value has a window. `Instructions.BuildField` rejects such values, so no encoding
  uses the stand-in.
- Variants registered as `None` decode to `Unsupported(variant)`. What a caller does with
  that is outside this file.
- The Rust struct comments, the instruction account lists and the business meaning of
  weights, fees and rates are documentation only and are not modelled.

## Findings

| source | as written | input that shows it | evidently intended | confidence | as-written member | corrected member |
|---|---|---|---|---|---|---|
| mango/layouts/layouts.py:165-180 | `FloatI80F48Adapter` reads the 16 bytes as an unsigned integer before dividing by 2^48 | sixteen 0xFF bytes read as (2^128 − 1)/2^48 ≈ 1.2·10^24 instead of −2^−48; every negative I80F48 reads as a huge positive value | I80F48 is a signed 128-bit fixed-point type (its comment at lines 158-162 says `FixedI128`), so the bytes should be read in two's complement | not executed; high | Adapters.ReadI80F48 (shown by Adapters.I80F48AllOnesSign) | Adapters.ReadI80F48Signed (sign law Adapters.I80F48Sign), used by every record |
| mango/layouts/layouts.py:973-974 | `RepeatUntil` tests `len(lst) == seq_num` only after reading an event | a queue header with seq_num = 0 followed by any whole events: the loop never sees length 0 and reads until the input runs out, so the queue fails to decode | a queue of seq_num events, so seq_num = 0 gives an empty queue | not executed; medium | Events.DecodeEventQueueAsWritten (shown by Events.SeqNumZeroNeverDecodes) | Events.DecodeEventQueue (agreement for seq_num ≥ 1: Events.QueueDecodersAgree) |
