/** The fixed-shape mango and serum account records.

A record is a sequence of fields read one after another at cumulative offsets:
padding is skipped (but must be present), arrays have a fixed length and records
nest. Each record `X` has a total constructor `XAt(s, p)` that builds the value
from the window at `p` once that window is known to fit, and a decoder `DecodeX`
that fails exactly when the window does not fit. The decoder's contract states
the record field by field in terms of the primitive adapters: field `f` at offset
`o` is what the adapter of `f` reads at `pos + o`, so the offsets are the running
sums of the field widths and the record's width is their total.

Fixed-point fields are I80F48 values read as the signed type they are (see the
README's Findings).
 */
module Records {
  import opened Wrappers
  import opened LittleEndian
  import opened Adapters
  import Header

  const MAX_TOKENS: nat := 32
  const MAX_PAIRS: nat := MAX_TOKENS - 1
  const MAX_NODE_BANKS: nat := 8

  // ---------------------------------------------------------------- arrays

  /** n elements of width w laid end to end from p, each read by `at`. */
  function Table<E>(s: seq<byte>, p: nat, n: nat, w: nat, at: (seq<byte>, nat) --> E): (t: seq<E>)
    requires forall i | 0 <= i < n :: at.requires(s, p + w * i)
    ensures |t| == n
  {
    seq(n, i requires 0 <= i < n => at(s, p + w * i))
  }

  lemma TableElement<E>(s: seq<byte>, p: nat, n: nat, w: nat, at: (seq<byte>, nat) --> E, i: nat)
    requires forall i | 0 <= i < n :: at.requires(s, p + w * i)
    requires i < n
    ensures Table(s, p, n, w, at)[i] == at(s, p + w * i)
  {
  }

  /** n keys laid end to end from p. */
  function KeysAt(s: seq<byte>, p: nat, n: nat): seq<Key>
    requires p + KEY_SIZE * n <= |s|
  {
    Table(s, p, n, KEY_SIZE, KeyAt)
  }

  /** Element i of the table is what ReadKey reads at p + KEY_SIZE * i. */
  lemma KeysElement(s: seq<byte>, p: nat, n: nat, i: nat)
    requires p + KEY_SIZE * n <= |s| && i < n
    ensures ReadKey(s, p + KEY_SIZE * i) == Success(Decoded(KeysAt(s, p, n)[i], p + KEY_SIZE * i + KEY_SIZE))
  {
    TableElement(s, p, n, KEY_SIZE, KeyAt, i);
  }

  /** The table has n elements, each what ReadKey reads at its own offset. */
  lemma KeysLayout(s: seq<byte>, p: nat, n: nat)
    requires p + KEY_SIZE * n <= |s|
    ensures |KeysAt(s, p, n)| == n
    ensures forall i | 0 <= i < n ::
      ReadKey(s, p + KEY_SIZE * i) == Success(Decoded(KeysAt(s, p, n)[i], p + KEY_SIZE * i + KEY_SIZE))
  {
    forall i | 0 <= i < n
      ensures ReadKey(s, p + KEY_SIZE * i) == Success(Decoded(KeysAt(s, p, n)[i], p + KEY_SIZE * i + KEY_SIZE))
    {
      KeysElement(s, p, n, i);
    }
  }

  /** Element i of an array of n w-byte elements ends within the array. */
  lemma {:induction false} StrideFits(w: nat, i: nat, n: nat)
    requires i < n
    ensures w * i + w <= w * n
    decreases n - i
  {
    assert w * (i + 1) == w * i + w;
    if i + 1 < n {
      StrideFits(w, i + 1, n);
    }
  }

  /** n unsigned w-byte integers laid end to end from p. */
  function UIntsAt(s: seq<byte>, p: nat, n: nat, w: nat): seq<nat>
    requires p + w * n <= |s|
  {
    seq(n, i requires 0 <= i < n => StrideFits(w, i, n); UIntAt(s, p + w * i, w))
  }

  /** Element i of the table is what ReadUInt reads at p + w * i. */
  lemma UIntsElement(s: seq<byte>, p: nat, n: nat, w: nat, i: nat)
    requires p + w * n <= |s| && i < n
    ensures ReadUInt(s, p + w * i, w) == Success(Decoded(UIntsAt(s, p, n, w)[i], p + w * i + w))
  {
    StrideFits(w, i, n);
  }

  /** The table has n elements, each what ReadUInt reads at its own offset. */
  lemma UIntsLayout(s: seq<byte>, p: nat, n: nat, w: nat)
    requires p + w * n <= |s|
    ensures |UIntsAt(s, p, n, w)| == n
    ensures forall i | 0 <= i < n ::
      ReadUInt(s, p + w * i, w) == Success(Decoded(UIntsAt(s, p, n, w)[i], p + w * i + w))
  {
    forall i | 0 <= i < n
      ensures ReadUInt(s, p + w * i, w) == Success(Decoded(UIntsAt(s, p, n, w)[i], p + w * i + w))
    {
      UIntsElement(s, p, n, w, i);
    }
  }

  /** n signed w-byte integers laid end to end from p. */
  function SIntsAt(s: seq<byte>, p: nat, n: nat, w: nat): seq<int>
    requires p + w * n <= |s|
  {
    seq(n, i requires 0 <= i < n => StrideFits(w, i, n); SIntAt(s, p + w * i, w))
  }

  /** Element i of the table is what ReadSInt reads at p + w * i. */
  lemma SIntsElement(s: seq<byte>, p: nat, n: nat, w: nat, i: nat)
    requires p + w * n <= |s| && i < n
    ensures ReadSInt(s, p + w * i, w) == Success(Decoded(SIntsAt(s, p, n, w)[i], p + w * i + w))
  {
    StrideFits(w, i, n);
  }

  /** The table has n elements, each what ReadSInt reads at its own offset. */
  lemma SIntsLayout(s: seq<byte>, p: nat, n: nat, w: nat)
    requires p + w * n <= |s|
    ensures |SIntsAt(s, p, n, w)| == n
    ensures forall i | 0 <= i < n ::
      ReadSInt(s, p + w * i, w) == Success(Decoded(SIntsAt(s, p, n, w)[i], p + w * i + w))
  {
    forall i | 0 <= i < n
      ensures ReadSInt(s, p + w * i, w) == Success(Decoded(SIntsAt(s, p, n, w)[i], p + w * i + w))
    {
      SIntsElement(s, p, n, w, i);
    }
  }

  /** n I80F48 values laid end to end from p. */
  function I80F48sAt(s: seq<byte>, p: nat, n: nat): seq<Fixed>
    requires p + I80F48_SIZE * n <= |s|
  {
    Table(s, p, n, I80F48_SIZE, I80F48At)
  }

  /** Element i of the table is what ReadI80F48Signed reads at p + I80F48_SIZE * i. */
  lemma I80F48sElement(s: seq<byte>, p: nat, n: nat, i: nat)
    requires p + I80F48_SIZE * n <= |s| && i < n
    ensures ReadI80F48Signed(s, p + I80F48_SIZE * i) == Success(Decoded(I80F48sAt(s, p, n)[i], p + I80F48_SIZE * i + I80F48_SIZE))
  {
    TableElement(s, p, n, I80F48_SIZE, I80F48At, i);
  }

  /** The table has n elements, each what ReadI80F48Signed reads at its own offset. */
  lemma I80F48sLayout(s: seq<byte>, p: nat, n: nat)
    requires p + I80F48_SIZE * n <= |s|
    ensures |I80F48sAt(s, p, n)| == n
    ensures forall i | 0 <= i < n ::
      ReadI80F48Signed(s, p + I80F48_SIZE * i) == Success(Decoded(I80F48sAt(s, p, n)[i], p + I80F48_SIZE * i + I80F48_SIZE))
  {
    forall i | 0 <= i < n
      ensures ReadI80F48Signed(s, p + I80F48_SIZE * i) == Success(Decoded(I80F48sAt(s, p, n)[i], p + I80F48_SIZE * i + I80F48_SIZE))
    {
      I80F48sElement(s, p, n, i);
    }
  }

  // ---------------------------------------------------------------- encoding arrays

  /** The encoder of one unsigned w-byte array element. */
  function UIntBuilder(w: nat): int -> Result<seq<byte>, Error>
  {
    x => BuildUInt(x, w)
  }

  /** The encoder of one signed w-byte array element. */
  function SIntBuilder(w: nat): int -> Result<seq<byte>, Error>
  {
    x => BuildSInt(x, w)
  }

  /** The elements encoded one after another; the first element without an encoding
      fails the whole array. */
  function BuildElements<E>(xs: seq<E>, build: E -> Result<seq<byte>, Error>): (r: Result<seq<byte>, Error>)
    ensures r.Success? <==> forall i | 0 <= i < |xs| :: build(xs[i]).Success?
    decreases |xs|
  {
    if xs == [] then Success([])
    else
      assert forall i | 0 <= i < |xs| - 1 :: xs[1..][i] == xs[i + 1];
      var head :- build(xs[0]);
      var tail :- BuildElements(xs[1..], build);
      Success(head + tail)
  }

  /** Encoding a fixed-length array: a list of any other length has no encoding. */
  function BuildArray<E>(xs: seq<E>, n: nat, build: E -> Result<seq<byte>, Error>): (r: Result<seq<byte>, Error>)
    ensures r.Success? <==> |xs| == n && forall i | 0 <= i < |xs| :: build(xs[i]).Success?
    ensures |xs| != n ==> r == Failure(ArrayLengthMismatch(n, |xs|))
  {
    if |xs| != n then Failure(ArrayLengthMismatch(n, |xs|)) else BuildElements(xs, build)
  }

  /** Elements that each encode to w bytes make an array of w bytes per element. */
  lemma {:induction false} ElementsLength<E>(xs: seq<E>, build: E -> Result<seq<byte>, Error>, w: nat)
    requires BuildElements(xs, build).Success?
    requires forall j | 0 <= j < |xs| :: |build(xs[j]).value| == w
    ensures |BuildElements(xs, build).value| == w * |xs|
    decreases |xs|
  {
    if xs != [] {
      assert forall j | 0 <= j < |xs| - 1 :: xs[1..][j] == xs[j + 1];
      ElementsLength(xs[1..], build, w);
      assert w * |xs| == w + w * (|xs| - 1);
    }
  }

  /** Element i's encoding sits at w * i in the encoded array. */
  lemma {:induction false} ElementsSlice<E>(xs: seq<E>, build: E -> Result<seq<byte>, Error>, w: nat, i: nat)
    requires BuildElements(xs, build).Success?
    requires forall j | 0 <= j < |xs| :: |build(xs[j]).value| == w
    requires i < |xs|
    ensures |BuildElements(xs, build).value| == w * |xs| && w * i + w <= w * |xs|
    ensures BuildElements(xs, build).value[w * i..w * i + w] == build(xs[i]).value
    decreases i
  {
    ElementsLength(xs, build, w);
    StrideFits(w, i, |xs|);
    assert forall j | 0 <= j < |xs| - 1 :: xs[1..][j] == xs[j + 1];
    var head := build(xs[0]).value;
    var tail := BuildElements(xs[1..], build).value;
    assert BuildElements(xs, build).value == head + tail;
    if i == 0 {
      assert (head + tail)[0..w] == head;
    } else {
      ElementsSlice(xs[1..], build, w, i - 1);
      assert w * i == w + w * (i - 1);
      assert (head + tail)[w * i..w * i + w] == tail[w * (i - 1)..w * (i - 1) + w];
    }
  }

  /** A list of n integers that each fit w bytes has an unsigned array encoding. */
  lemma UIntArrayBuilds(xs: seq<int>, n: nat, w: nat)
    requires |xs| == n && forall i | 0 <= i < n :: 0 <= xs[i] < Pow256(w)
    ensures BuildArray(xs, n, UIntBuilder(w)).Success?
  {
    forall i | 0 <= i < n
      ensures UIntBuilder(w)(xs[i]).Success?
    {
    }
  }

  /** A list of n integers that each fit w signed bytes has a signed array encoding. */
  lemma SIntArrayBuilds(xs: seq<int>, n: nat, w: nat)
    requires |xs| == n && forall i | 0 <= i < n :: -SignedBound(w) <= xs[i] < SignedBound(w)
    ensures BuildArray(xs, n, SIntBuilder(w)).Success?
  {
    forall i | 0 <= i < n
      ensures SIntBuilder(w)(xs[i]).Success?
    {
    }
  }

  /** x encodes to exactly the w bytes of s from q. */
  predicate EncodesTo<E>(build: E -> Result<seq<byte>, Error>, x: E, s: seq<byte>, q: nat, w: nat)
  {
    q + w <= |s| && build(x) == Success(s[q..q + w])
  }

  /** Elements that each encode to the next w bytes of a window encode to the whole window. */
  lemma {:induction false} ElementsWindow<E>(xs: seq<E>, build: E -> Result<seq<byte>, Error>, s: seq<byte>, p: nat, w: nat)
    requires p + w * |xs| <= |s|
    requires forall i | 0 <= i < |xs| :: EncodesTo(build, xs[i], s, p + w * i, w)
    ensures BuildElements(xs, build) == Success(s[p..p + w * |xs|])
    decreases |xs|
  {
    if xs == [] {
      assert w * |xs| == 0;
    } else {
      var rest := xs[1..];
      assert w * |xs| == w + w * |rest|;
      forall i | 0 <= i < |rest|
        ensures EncodesTo(build, rest[i], s, p + w + w * i, w)
      {
        assert rest[i] == xs[i + 1];
        assert w * (i + 1) == w + w * i;
        assert EncodesTo(build, xs[i + 1], s, p + w * (i + 1), w);
      }
      ElementsWindow(rest, build, s, p + w, w);
      var head, tail := s[p..p + w], s[p + w..p + w + w * |rest|];
      assert EncodesTo(build, xs[0], s, p + w * 0, w);
      assert w * 0 == 0;
      assert build(xs[0]) == Success(head);
      assert BuildElements(rest, build) == Success(tail);
      assert BuildElements(xs, build) == Success(head + tail);
      assert s[p..p + w * |xs|] == head + tail;
    }
  }

  /** A unsigned table read from a window encodes back to exactly that window. */
  lemma UIntsWindowRoundTrip(s: seq<byte>, p: nat, n: nat, w: nat)
    requires p + w * n <= |s|
    ensures BuildArray<int>(UIntsAt(s, p, n, w), n, UIntBuilder(w)) == Success(s[p..p + w * n])
  {
    var xs: seq<int> := UIntsAt(s, p, n, w);
    forall i | 0 <= i < |xs|
      ensures EncodesTo(UIntBuilder(w), xs[i], s, p + w * i, w)
    {
      UIntsElement(s, p, n, w, i);
      UIntWindowRoundTrip(s, p + w * i, w);
    }
    ElementsWindow(xs, UIntBuilder(w), s, p, w);
  }

  /** A signed table read from a window encodes back to exactly that window. */
  lemma SIntsWindowRoundTrip(s: seq<byte>, p: nat, n: nat, w: nat)
    requires 0 < w && p + w * n <= |s|
    ensures BuildArray<int>(SIntsAt(s, p, n, w), n, SIntBuilder(w)) == Success(s[p..p + w * n])
  {
    var xs := SIntsAt(s, p, n, w);
    forall i | 0 <= i < |xs|
      ensures EncodesTo(SIntBuilder(w), xs[i], s, p + w * i, w)
    {
      SIntsElement(s, p, n, w, i);
      SIntWindowRoundTrip(s, p + w * i, w);
    }
    ElementsWindow(xs, SIntBuilder(w), s, p, w);
  }

  /** A window cut at two inner offsets is its three pieces in turn. */
  lemma WindowThirds<T>(s: seq<T>, a: nat, b: nat, c: nat, d: nat)
    requires a <= b <= c <= d <= |s|
    ensures s[a..d] == s[a..b] + s[b..c] + s[c..d]
  {
  }

  /** A window of a window is the window at the summed offsets. */
  lemma SliceOfSlice<T>(s: seq<T>, p: nat, q: nat, i: nat, j: nat)
    requires p <= q <= |s| && i <= j <= q - p
    ensures s[p..q][i..j] == s[p + i..p + j]
  {
    var inner := s[p..q];
    forall k | 0 <= k < j - i
      ensures inner[i..j][k] == s[p + i..p + j][k]
    {
      assert inner[i..j][k] == inner[i + k] == s[p + i + k];
    }
  }

  /** An encoded unsigned array read back where it sits gives the integers it encodes. */
  lemma UIntsRoundTrip(s: seq<byte>, p: nat, xs: seq<int>, n: nat, w: nat)
    requires BuildArray(xs, n, UIntBuilder(w)).Success?
    requires p + w * n <= |s| && s[p..p + w * n] == BuildArray(xs, n, UIntBuilder(w)).value
    ensures UIntsAt(s, p, n, w) == xs
  {
    forall j | 0 <= j < n
      ensures UIntsAt(s, p, n, w)[j] == xs[j]
    {
      UIntsElementRoundTrip(s, p, xs, n, w, j);
    }
  }

  /** Element j of an encoded unsigned array reads back as the integer it encodes. */
  lemma UIntsElementRoundTrip(s: seq<byte>, p: nat, xs: seq<int>, n: nat, w: nat, j: nat)
    requires BuildArray(xs, n, UIntBuilder(w)).Success?
    requires p + w * n <= |s| && s[p..p + w * n] == BuildArray(xs, n, UIntBuilder(w)).value
    requires j < n
    ensures UIntsAt(s, p, n, w)[j] == xs[j]
  {
    assert BuildArray(xs, n, UIntBuilder(w)).value == BuildElements(xs, UIntBuilder(w)).value;
    ElementsSlice(xs, UIntBuilder(w), w, j);
    SliceOfSlice(s, p, p + w * n, w * j, w * j + w);
    var e := BuildUInt(xs[j], w).value;
    assert UIntBuilder(w)(xs[j]).value == e;
    assert s[p + w * j..p + w * j + w] == e;
    StrideFits(w, j, n);
    assert UIntsAt(s, p, n, w)[j] == UIntLE(e);
  }

  /** An encoded signed array read back where it sits gives the integers it encodes. */
  lemma SIntsRoundTrip(s: seq<byte>, p: nat, xs: seq<int>, n: nat, w: nat)
    requires BuildArray(xs, n, SIntBuilder(w)).Success?
    requires p + w * n <= |s| && s[p..p + w * n] == BuildArray(xs, n, SIntBuilder(w)).value
    ensures SIntsAt(s, p, n, w) == xs
  {
    forall j | 0 <= j < n
      ensures SIntsAt(s, p, n, w)[j] == xs[j]
    {
      SIntsElementRoundTrip(s, p, xs, n, w, j);
    }
  }

  /** Element j of an encoded signed array reads back as the integer it encodes. */
  lemma SIntsElementRoundTrip(s: seq<byte>, p: nat, xs: seq<int>, n: nat, w: nat, j: nat)
    requires BuildArray(xs, n, SIntBuilder(w)).Success?
    requires p + w * n <= |s| && s[p..p + w * n] == BuildArray(xs, n, SIntBuilder(w)).value
    requires j < n
    ensures SIntsAt(s, p, n, w)[j] == xs[j]
  {
    assert BuildArray(xs, n, SIntBuilder(w)).value == BuildElements(xs, SIntBuilder(w)).value;
    ElementsSlice(xs, SIntBuilder(w), w, j);
    SliceOfSlice(s, p, p + w * n, w * j, w * j + w);
    var e := BuildSInt(xs[j], w).value;
    assert SIntBuilder(w)(xs[j]).value == e;
    assert s[p + w * j..p + w * j + w] == e;
    StrideFits(w, j, n);
    assert SIntsAt(s, p, n, w)[j] == SIntLE(e);
  }

  // ---------------------------------------------------------------- serum token account

  datatype TokenAccount = TokenAccount(mint: Key, owner: Key, amount: nat)

  const TOKEN_ACCOUNT_SIZE: nat := 165

  function TokenAccountAt(s: seq<byte>, p: nat): TokenAccount
    requires p + TOKEN_ACCOUNT_SIZE <= |s|
  {
    TokenAccount(KeyAt(s, p), KeyAt(s, p + 32), UIntAt(s, p + 64, 8))
  }

  /** An SPL token account: mint, owner, u64 amount, then 93 reserved bytes. */
  function DecodeTokenAccount(s: seq<byte>, pos: nat): (r: Parsed<TokenAccount>)
    ensures r.Success? <==> pos + TOKEN_ACCOUNT_SIZE <= |s|
    ensures r.Success? ==> r.value.next == pos + 165
    ensures r.Success? ==> r.value.value == TokenAccountAt(s, pos)
    ensures r.Failure? ==> r.error == TruncatedInput(pos, TOKEN_ACCOUNT_SIZE)
  {
    if pos + TOKEN_ACCOUNT_SIZE <= |s| then Success(Decoded(TokenAccountAt(s, pos), pos + TOKEN_ACCOUNT_SIZE))
    else Failure(TruncatedInput(pos, TOKEN_ACCOUNT_SIZE))
  }

  /** The fields of a TokenAccount, each what its own adapter reads at its offset. */
  lemma TokenAccountLayout(s: seq<byte>, pos: nat)
    requires pos + TOKEN_ACCOUNT_SIZE <= |s|
    ensures var a := TokenAccountAt(s, pos);
      ReadKey(s, pos) == Success(Decoded(a.mint, pos + 32))
      && ReadKey(s, pos + 32) == Success(Decoded(a.owner, pos + 64))
      && ReadUInt(s, pos + 64, 8) == Success(Decoded(a.amount, pos + 72))
  {
  }

  /** Encoding a token account: both keys must be present and the amount must fit a u64. */
  function BuildTokenAccount(a: TokenAccount): (r: Result<seq<byte>, Error>)
    ensures r.Success? <==> a.mint.Some? && a.owner.Some? && a.amount < Pow256(8)
    ensures r.Success? ==> |r.value| == TOKEN_ACCOUNT_SIZE
  {
    var mint :- BuildKey(a.mint);
    var owner :- BuildKey(a.owner);
    var amount :- BuildUInt(a.amount, 8);
    Success(mint + owner + amount + Zeros(93))
  }

  /** A token account with two non-zero keys and an in-range amount survives encoding then decoding. */
  lemma TokenAccountRoundTrip(a: TokenAccount)
    requires a.mint.Some? && a.mint.value != Zeros(KEY_SIZE)
    requires a.owner.Some? && a.owner.value != Zeros(KEY_SIZE)
    requires a.amount < Pow256(8)
    ensures BuildTokenAccount(a).Success?
    ensures DecodeTokenAccount(BuildTokenAccount(a).value, 0) == Success(Decoded(a, TOKEN_ACCOUNT_SIZE))
  {
    var amount := BuildUInt(a.amount, 8).value;
    var b := BuildTokenAccount(a).value;
    assert b[0..32] == a.mint.value;
    assert b[32..64] == a.owner.value;
    assert b[64..72] == amount;
  }

  // ---------------------------------------------------------------- serum open orders

  datatype OpenOrders = OpenOrders(
    accountFlags: Header.AccountFlags,
    market: Key,
    owner: Key,
    baseTokenFree: nat,
    baseTokenTotal: nat,
    quoteTokenFree: nat,
    quoteTokenTotal: nat,
    freeSlotBits: nat,
    isBidBits: nat,
    orders: seq<nat>,
    clientIds: seq<nat>,
    referrerRebateAccrued: nat)

  const OPEN_ORDERS_SLOTS: nat := 128
  const OPEN_ORDERS_SIZE: nat := 3228

  function OpenOrdersAt(s: seq<byte>, p: nat): OpenOrders
    requires p + OPEN_ORDERS_SIZE <= |s|
  {
    OpenOrders(Header.AccountFlagsAt(s, p + 5), KeyAt(s, p + 13), KeyAt(s, p + 45),
      UIntAt(s, p + 77, 8), UIntAt(s, p + 85, 8), UIntAt(s, p + 93, 8), UIntAt(s, p + 101, 8),
      UIntAt(s, p + 109, 16), UIntAt(s, p + 125, 16),
      UIntsAt(s, p + 141, 128, 16),
      UIntsAt(s, p + 2189, 128, 8),
      UIntAt(s, p + 3213, 8))
  }

  /** A serum open-orders account: 5 leading bytes, the flags word, two keys, four
      balances, two 128-bit slot masks, 128 order ids, 128 client ids, the referrer
      rebate and 7 trailing bytes. */
  function DecodeOpenOrders(s: seq<byte>, pos: nat): (r: Parsed<OpenOrders>)
    ensures r.Success? <==> pos + OPEN_ORDERS_SIZE <= |s|
    ensures r.Success? ==> r.value.next == pos + 3228
    ensures r.Success? ==> r.value.value == OpenOrdersAt(s, pos)
    ensures r.Failure? ==> r.error == TruncatedInput(pos, OPEN_ORDERS_SIZE)
  {
    if pos + OPEN_ORDERS_SIZE <= |s| then Success(Decoded(OpenOrdersAt(s, pos), pos + OPEN_ORDERS_SIZE))
    else Failure(TruncatedInput(pos, OPEN_ORDERS_SIZE))
  }

  /** The fields of a OpenOrders, each what its own adapter reads at its offset. */
  lemma OpenOrdersLayout(s: seq<byte>, pos: nat)
    requires pos + OPEN_ORDERS_SIZE <= |s|
    ensures var o := OpenOrdersAt(s, pos);
      Header.DecodeAccountFlags(s, pos + 5) == Success(Decoded(o.accountFlags, pos + 13))
      && ReadKey(s, pos + 13) == Success(Decoded(o.market, pos + 45))
      && ReadKey(s, pos + 45) == Success(Decoded(o.owner, pos + 77))
      && ReadUInt(s, pos + 77, 8) == Success(Decoded(o.baseTokenFree, pos + 85))
      && ReadUInt(s, pos + 85, 8) == Success(Decoded(o.baseTokenTotal, pos + 93))
      && ReadUInt(s, pos + 93, 8) == Success(Decoded(o.quoteTokenFree, pos + 101))
      && ReadUInt(s, pos + 101, 8) == Success(Decoded(o.quoteTokenTotal, pos + 109))
      && ReadUInt(s, pos + 109, 16) == Success(Decoded(o.freeSlotBits, pos + 125))
      && ReadUInt(s, pos + 125, 16) == Success(Decoded(o.isBidBits, pos + 141))
      && o.orders == UIntsAt(s, pos + 141, OPEN_ORDERS_SLOTS, 16)
      && o.clientIds == UIntsAt(s, pos + 2189, OPEN_ORDERS_SLOTS, 8)
      && ReadUInt(s, pos + 3213, 8) == Success(Decoded(o.referrerRebateAccrued, pos + 3221))
  {
  }

  /** Every balance and id of an open-orders account within its width, and both id
      arrays exactly 128 long. */
  predicate OpenOrdersFits(o: OpenOrders)
  {
    o.baseTokenFree < Pow256(8) && o.baseTokenTotal < Pow256(8)
    && o.quoteTokenFree < Pow256(8) && o.quoteTokenTotal < Pow256(8)
    && o.freeSlotBits < Pow256(16) && o.isBidBits < Pow256(16)
    && |o.orders| == OPEN_ORDERS_SLOTS && (forall i | 0 <= i < |o.orders| :: o.orders[i] < Pow256(16))
    && |o.clientIds| == OPEN_ORDERS_SLOTS && (forall i | 0 <= i < |o.clientIds| :: o.clientIds[i] < Pow256(8))
    && o.referrerRebateAccrued < Pow256(8)
  }

  /** The bytes of an open-orders account whose keys are present and whose numbers fit. */
  function OpenOrdersBytes(o: OpenOrders): (b: seq<byte>)
    requires o.market.Some? && o.owner.Some? && OpenOrdersFits(o)
    ensures |b| == OPEN_ORDERS_SIZE
  {
    ElementsLength<int>(o.orders, UIntBuilder(16), 16);
    ElementsLength<int>(o.clientIds, UIntBuilder(8), 8);
    (Zeros(5) + Header.BuildAccountFlags(o.accountFlags) + o.market.value + o.owner.value)
    + (BuildUInt(o.baseTokenFree, 8).value + BuildUInt(o.baseTokenTotal, 8).value
      + BuildUInt(o.quoteTokenFree, 8).value + BuildUInt(o.quoteTokenTotal, 8).value
      + BuildUInt(o.freeSlotBits, 16).value + BuildUInt(o.isBidBits, 16).value)
    + (BuildArray<int>(o.orders, OPEN_ORDERS_SLOTS, UIntBuilder(16)).value
      + BuildArray<int>(o.clientIds, OPEN_ORDERS_SLOTS, UIntBuilder(8)).value
      + BuildUInt(o.referrerRebateAccrued, 8).value + Zeros(7))
  }

  /** Encoding an open-orders account: both keys present and every number fitting its
      field, the first field that does not fit giving the error; the leading and
      trailing bytes are written as zeros. */
  function BuildOpenOrders(o: OpenOrders): (r: Result<seq<byte>, Error>)
    ensures r.Success? <==> o.market.Some? && o.owner.Some? && OpenOrdersFits(o)
    ensures r.Success? ==> r.value == OpenOrdersBytes(o) && |r.value| == OPEN_ORDERS_SIZE
  {
    var _ :- BuildKey(o.market);
    var _ :- BuildKey(o.owner);
    var _ :- BuildUInt(o.baseTokenFree, 8);
    var _ :- BuildUInt(o.baseTokenTotal, 8);
    var _ :- BuildUInt(o.quoteTokenFree, 8);
    var _ :- BuildUInt(o.quoteTokenTotal, 8);
    var _ :- BuildUInt(o.freeSlotBits, 16);
    var _ :- BuildUInt(o.isBidBits, 16);
    var _ :- BuildArray<int>(o.orders, OPEN_ORDERS_SLOTS, UIntBuilder(16));
    var _ :- BuildArray<int>(o.clientIds, OPEN_ORDERS_SLOTS, UIntBuilder(8));
    var _ :- BuildUInt(o.referrerRebateAccrued, 8);
    Success(OpenOrdersBytes(o))
  }

  /** The three parts of a concatenation, each at its own offset. */
  lemma ConcatThirds<T>(x: seq<T>, y: seq<T>, z: seq<T>)
    ensures (x + y + z)[0..|x|] == x
    ensures (x + y + z)[|x|..|x| + |y|] == y
    ensures (x + y + z)[|x| + |y|..|x| + |y| + |z|] == z
  {
  }

  /** The flags and keys of an encoded open-orders account read back. */
  lemma OpenOrdersHeadReadsBack(b: seq<byte>, o: OpenOrders)
    requires o.market.Some? && o.market.value != Zeros(KEY_SIZE)
    requires o.owner.Some? && o.owner.value != Zeros(KEY_SIZE)
    requires |b| >= 77
    requires b[0..77] == Zeros(5) + Header.BuildAccountFlags(o.accountFlags) + o.market.value + o.owner.value
    ensures Header.AccountFlagsAt(b, 5) == o.accountFlags
    ensures KeyAt(b, 13) == o.market && KeyAt(b, 45) == o.owner
  {
    var h := b[0..77];
    var flags := Header.BuildAccountFlags(o.accountFlags);
    assert b[5] == h[5] == flags[0];
    Header.AccountFlagsRoundTrip(o.accountFlags);
    assert Header.AccountFlagsAt(b, 5) == Header.AccountFlagsAt(flags, 0);
    SliceOfSlice(b, 0, 77, 13, 45);
    SliceOfSlice(b, 0, 77, 45, 77);
    assert h[13..45] == o.market.value;
    assert h[45..77] == o.owner.value;
  }

  /** The balances and slot masks of an encoded open-orders account read back. */
  lemma OpenOrdersBalancesReadBack(b: seq<byte>, o: OpenOrders)
    requires OpenOrdersFits(o)
    requires |b| >= 141
    requires b[77..141] == BuildUInt(o.baseTokenFree, 8).value + BuildUInt(o.baseTokenTotal, 8).value
      + BuildUInt(o.quoteTokenFree, 8).value + BuildUInt(o.quoteTokenTotal, 8).value
      + BuildUInt(o.freeSlotBits, 16).value + BuildUInt(o.isBidBits, 16).value
    ensures UIntAt(b, 77, 8) == o.baseTokenFree && UIntAt(b, 85, 8) == o.baseTokenTotal
    ensures UIntAt(b, 93, 8) == o.quoteTokenFree && UIntAt(b, 101, 8) == o.quoteTokenTotal
    ensures UIntAt(b, 109, 16) == o.freeSlotBits && UIntAt(b, 125, 16) == o.isBidBits
  {
    var m := b[77..141];
    SliceOfSlice(b, 77, 141, 0, 8);
    SliceOfSlice(b, 77, 141, 8, 16);
    SliceOfSlice(b, 77, 141, 16, 24);
    SliceOfSlice(b, 77, 141, 24, 32);
    SliceOfSlice(b, 77, 141, 32, 48);
    SliceOfSlice(b, 77, 141, 48, 64);
    assert m[0..8] == BuildUInt(o.baseTokenFree, 8).value;
    assert m[8..16] == BuildUInt(o.baseTokenTotal, 8).value;
    assert m[16..24] == BuildUInt(o.quoteTokenFree, 8).value;
    assert m[24..32] == BuildUInt(o.quoteTokenTotal, 8).value;
    assert m[32..48] == BuildUInt(o.freeSlotBits, 16).value;
    assert m[48..64] == BuildUInt(o.isBidBits, 16).value;
  }

  /** The id arrays and rebate of an encoded open-orders account sit at their offsets. */
  lemma OpenOrdersTailReadsBack(b: seq<byte>, o: OpenOrders)
    requires OpenOrdersFits(o)
    requires |b| >= OPEN_ORDERS_SIZE
    requires b[141..3228] == BuildArray<int>(o.orders, OPEN_ORDERS_SLOTS, UIntBuilder(16)).value
      + BuildArray<int>(o.clientIds, OPEN_ORDERS_SLOTS, UIntBuilder(8)).value
      + BuildUInt(o.referrerRebateAccrued, 8).value + Zeros(7)
    ensures b[141..2189] == BuildArray<int>(o.orders, OPEN_ORDERS_SLOTS, UIntBuilder(16)).value
    ensures b[2189..3213] == BuildArray<int>(o.clientIds, OPEN_ORDERS_SLOTS, UIntBuilder(8)).value
    ensures UIntAt(b, 3213, 8) == o.referrerRebateAccrued
  {
    ElementsLength<int>(o.orders, UIntBuilder(16), 16);
    ElementsLength<int>(o.clientIds, UIntBuilder(8), 8);
    var tl := b[141..3228];
    SliceOfSlice(b, 141, 3228, 0, 2048);
    SliceOfSlice(b, 141, 3228, 2048, 3072);
    SliceOfSlice(b, 141, 3228, 3072, 3080);
    assert tl[3072..3080] == BuildUInt(o.referrerRebateAccrued, 8).value;
  }

  /** The encoding of an open-orders account is its head, balances and tail in turn. */
  lemma OpenOrdersBytesParts(o: OpenOrders)
    requires o.market.Some? && o.owner.Some? && OpenOrdersFits(o)
    ensures var b := OpenOrdersBytes(o);
      b[0..77] == Zeros(5) + Header.BuildAccountFlags(o.accountFlags) + o.market.value + o.owner.value
      && b[77..141] == BuildUInt(o.baseTokenFree, 8).value + BuildUInt(o.baseTokenTotal, 8).value
        + BuildUInt(o.quoteTokenFree, 8).value + BuildUInt(o.quoteTokenTotal, 8).value
        + BuildUInt(o.freeSlotBits, 16).value + BuildUInt(o.isBidBits, 16).value
      && b[141..3228] == BuildArray<int>(o.orders, OPEN_ORDERS_SLOTS, UIntBuilder(16)).value
        + BuildArray<int>(o.clientIds, OPEN_ORDERS_SLOTS, UIntBuilder(8)).value
        + BuildUInt(o.referrerRebateAccrued, 8).value + Zeros(7)
  {
    var head := Zeros(5) + Header.BuildAccountFlags(o.accountFlags) + o.market.value + o.owner.value;
    var balances := BuildUInt(o.baseTokenFree, 8).value + BuildUInt(o.baseTokenTotal, 8).value
      + BuildUInt(o.quoteTokenFree, 8).value + BuildUInt(o.quoteTokenTotal, 8).value
      + BuildUInt(o.freeSlotBits, 16).value + BuildUInt(o.isBidBits, 16).value;
    var tail := BuildArray<int>(o.orders, OPEN_ORDERS_SLOTS, UIntBuilder(16)).value
      + BuildArray<int>(o.clientIds, OPEN_ORDERS_SLOTS, UIntBuilder(8)).value
      + BuildUInt(o.referrerRebateAccrued, 8).value + Zeros(7);
    ElementsLength<int>(o.orders, UIntBuilder(16), 16);
    ElementsLength<int>(o.clientIds, UIntBuilder(8), 8);
    assert OpenOrdersBytes(o) == head + balances + tail;
    ConcatThirds(head, balances, tail);
  }

  /** Bytes whose fields read back as those of an account, and whose id arrays are
      the account's encoded ids, decode as that account. */
  lemma OpenOrdersReadsBack(b: seq<byte>, o: OpenOrders)
    requires OpenOrdersFits(o)
    requires |b| == OPEN_ORDERS_SIZE
    requires Header.AccountFlagsAt(b, 5) == o.accountFlags
    requires KeyAt(b, 13) == o.market && KeyAt(b, 45) == o.owner
    requires UIntAt(b, 77, 8) == o.baseTokenFree && UIntAt(b, 85, 8) == o.baseTokenTotal
    requires UIntAt(b, 93, 8) == o.quoteTokenFree && UIntAt(b, 101, 8) == o.quoteTokenTotal
    requires UIntAt(b, 109, 16) == o.freeSlotBits && UIntAt(b, 125, 16) == o.isBidBits
    requires UIntAt(b, 3213, 8) == o.referrerRebateAccrued
    requires b[141..2189] == BuildArray<int>(o.orders, OPEN_ORDERS_SLOTS, UIntBuilder(16)).value
    requires b[2189..3213] == BuildArray<int>(o.clientIds, OPEN_ORDERS_SLOTS, UIntBuilder(8)).value
    ensures OpenOrdersAt(b, 0) == o
  {
    UIntsRoundTrip(b, 141, o.orders, 128, 16);
    UIntsRoundTrip(b, 2189, o.clientIds, 128, 8);
  }

  /** An open-orders account with two non-zero keys and every number in range survives
      encoding then decoding. */
  lemma OpenOrdersRoundTrip(o: OpenOrders)
    requires o.market.Some? && o.market.value != Zeros(KEY_SIZE)
    requires o.owner.Some? && o.owner.value != Zeros(KEY_SIZE)
    requires OpenOrdersFits(o)
    ensures BuildOpenOrders(o).Success?
    ensures DecodeOpenOrders(BuildOpenOrders(o).value, 0) == Success(Decoded(o, OPEN_ORDERS_SIZE))
  {
    var b := OpenOrdersBytes(o);
    OpenOrdersBytesParts(o);
    OpenOrdersHeadReadsBack(b, o);
    OpenOrdersBalancesReadBack(b, o);
    OpenOrdersTailReadsBack(b, o);
    OpenOrdersReadsBack(b, o);
  }

  /** The flags and keys of an open-orders account read from a window with two
      non-zero keys encode back to the flags byte and the keys' bytes. */
  lemma OpenOrdersWindowHead(s: seq<byte>, pos: nat)
    requires pos + OPEN_ORDERS_SIZE <= |s|
    requires s[pos + 13..pos + 45] != Zeros(KEY_SIZE) && s[pos + 45..pos + 77] != Zeros(KEY_SIZE)
    ensures var o := OpenOrdersAt(s, pos);
      o.market.Some? && o.owner.Some?
      && Zeros(5) + Header.BuildAccountFlags(o.accountFlags) + o.market.value + o.owner.value
        == Zeros(5) + [s[pos + 5]] + Zeros(7) + s[pos + 13..pos + 77]
  {
    var o := OpenOrdersAt(s, pos);
    Header.AccountFlagsWindowRoundTrip(s, pos + 5);
    KeyWindowRoundTrip(s, pos + 13);
    KeyWindowRoundTrip(s, pos + 45);
    assert s[pos + 13..pos + 77] == s[pos + 13..pos + 45] + s[pos + 45..pos + 77];
  }

  /** The balances and slot masks of an open-orders account read from a window fit
      their fields and encode back to their bytes. */
  lemma OpenOrdersWindowBalances(s: seq<byte>, pos: nat)
    requires pos + OPEN_ORDERS_SIZE <= |s|
    ensures var o := OpenOrdersAt(s, pos);
      o.baseTokenFree < Pow256(8) && o.baseTokenTotal < Pow256(8)
      && o.quoteTokenFree < Pow256(8) && o.quoteTokenTotal < Pow256(8)
      && o.freeSlotBits < Pow256(16) && o.isBidBits < Pow256(16)
      && BuildUInt(o.baseTokenFree, 8).value + BuildUInt(o.baseTokenTotal, 8).value
        + BuildUInt(o.quoteTokenFree, 8).value + BuildUInt(o.quoteTokenTotal, 8).value
        + BuildUInt(o.freeSlotBits, 16).value + BuildUInt(o.isBidBits, 16).value
        == s[pos + 77..pos + 141]
  {
    var o := OpenOrdersAt(s, pos);
    var w := s[pos + 77..pos + 141];
    UIntWindowRoundTrip(s, pos + 77, 8);
    UIntWindowRoundTrip(s, pos + 85, 8);
    UIntWindowRoundTrip(s, pos + 93, 8);
    UIntWindowRoundTrip(s, pos + 101, 8);
    UIntWindowRoundTrip(s, pos + 109, 16);
    UIntWindowRoundTrip(s, pos + 125, 16);
    SliceOfSlice(s, pos + 77, pos + 141, 0, 8);
    SliceOfSlice(s, pos + 77, pos + 141, 8, 16);
    SliceOfSlice(s, pos + 77, pos + 141, 16, 24);
    SliceOfSlice(s, pos + 77, pos + 141, 24, 32);
    SliceOfSlice(s, pos + 77, pos + 141, 32, 48);
    SliceOfSlice(s, pos + 77, pos + 141, 48, 64);
    assert w == w[0..8] + w[8..16] + w[16..24] + w[24..32] + w[32..48] + w[48..64];
  }

  /** The id arrays and rebate of an open-orders account read from a window fit their
      fields and encode back to their bytes, followed by seven zero bytes. */
  lemma OpenOrdersWindowTail(s: seq<byte>, pos: nat)
    requires pos + OPEN_ORDERS_SIZE <= |s|
    ensures var o := OpenOrdersAt(s, pos);
      |o.orders| == OPEN_ORDERS_SLOTS && (forall i | 0 <= i < |o.orders| :: o.orders[i] < Pow256(16))
      && |o.clientIds| == OPEN_ORDERS_SLOTS && (forall i | 0 <= i < |o.clientIds| :: o.clientIds[i] < Pow256(8))
      && o.referrerRebateAccrued < Pow256(8)
      && BuildArray<int>(o.orders, OPEN_ORDERS_SLOTS, UIntBuilder(16)).value
        + BuildArray<int>(o.clientIds, OPEN_ORDERS_SLOTS, UIntBuilder(8)).value
        + BuildUInt(o.referrerRebateAccrued, 8).value + Zeros(7)
        == s[pos + 141..pos + 3221] + Zeros(7)
  {
    var o := OpenOrdersAt(s, pos);
    UIntsWindowRoundTrip(s, pos + 141, 128, 16);
    UIntsWindowRoundTrip(s, pos + 2189, 128, 8);
    UIntWindowRoundTrip(s, pos + 3213, 8);
    forall i | 0 <= i < |o.orders|
      ensures o.orders[i] < Pow256(16)
    {
      assert UIntBuilder(16)(o.orders[i]).Success?;
    }
    forall i | 0 <= i < |o.clientIds|
      ensures o.clientIds[i] < Pow256(8)
    {
      assert UIntBuilder(8)(o.clientIds[i]).Success?;
    }
    assert s[pos + 141..pos + 3221] == s[pos + 141..pos + 2189] + s[pos + 2189..pos + 3213]
      + s[pos + 3213..pos + 3221];
  }

  /** An open-orders account read from a window with two non-zero keys has an
      encoding, and its head, balances and tail encode back to those of the window. */
  lemma OpenOrdersWindowParts(s: seq<byte>, pos: nat)
    requires pos + OPEN_ORDERS_SIZE <= |s|
    requires s[pos + 13..pos + 45] != Zeros(KEY_SIZE) && s[pos + 45..pos + 77] != Zeros(KEY_SIZE)
    ensures var o := OpenOrdersAt(s, pos);
      o.market.Some? && o.owner.Some? && OpenOrdersFits(o)
      && OpenOrdersBytes(o)[0..77] == Zeros(5) + [s[pos + 5]] + Zeros(7) + s[pos + 13..pos + 77]
      && OpenOrdersBytes(o)[77..141] == s[pos + 77..pos + 141]
      && OpenOrdersBytes(o)[141..3228] == s[pos + 141..pos + 3221] + Zeros(7)
  {
    OpenOrdersWindowHead(s, pos);
    OpenOrdersWindowBalances(s, pos);
    OpenOrdersWindowTail(s, pos);
    OpenOrdersBytesParts(OpenOrdersAt(s, pos));
  }

  /** An open-orders account read from a window with two non-zero keys encodes back to
      that window, except that the leading bytes, the reserved flag bytes and the
      trailing bytes come back as zeros. */
  lemma OpenOrdersWindowRoundTrip(s: seq<byte>, pos: nat)
    requires pos + OPEN_ORDERS_SIZE <= |s|
    requires s[pos + 13..pos + 45] != Zeros(KEY_SIZE) && s[pos + 45..pos + 77] != Zeros(KEY_SIZE)
    ensures BuildOpenOrders(DecodeOpenOrders(s, pos).value.value)
      == Success(Zeros(5) + [s[pos + 5]] + Zeros(7) + s[pos + 13..pos + 3221] + Zeros(7))
  {
    var o := OpenOrdersAt(s, pos);
    OpenOrdersWindowParts(s, pos);
    var b := OpenOrdersBytes(o);
    var keys, balances, arrays := s[pos + 13..pos + 77], s[pos + 77..pos + 141], s[pos + 141..pos + 3221];
    var flags := Zeros(5) + [s[pos + 5]] + Zeros(7);
    WindowThirds(b, 0, 77, 141, 3228);
    WindowThirds(s, pos + 13, pos + 77, pos + 141, pos + 3221);
    assert b == (flags + keys) + balances + (arrays + Zeros(7));
    assert flags + (keys + balances + arrays) + Zeros(7) == b;
    assert BuildOpenOrders(o) == Success(b);
  }

  // ---------------------------------------------------------------- group

  datatype TokenInfo = TokenInfo(mint: Key, rootBank: Key, decimals: nat)

  const TOKEN_INFO_SIZE: nat := 72

  function TokenInfoAt(s: seq<byte>, p: nat): TokenInfo
    requires p + TOKEN_INFO_SIZE <= |s|
  {
    TokenInfo(KeyAt(s, p), KeyAt(s, p + 32), s[p + 64])
  }

  /** n token slots laid end to end from p. */
  function TokenInfosAt(s: seq<byte>, p: nat, n: nat): seq<TokenInfo>
    requires p + TOKEN_INFO_SIZE * n <= |s|
  {
    Table(s, p, n, TOKEN_INFO_SIZE, TokenInfoAt)
  }

  /** Element i of the table is what DecodeTokenInfo reads at p + TOKEN_INFO_SIZE * i. */
  lemma TokenInfosElement(s: seq<byte>, p: nat, n: nat, i: nat)
    requires p + TOKEN_INFO_SIZE * n <= |s| && i < n
    ensures DecodeTokenInfo(s, p + TOKEN_INFO_SIZE * i) == Success(Decoded(TokenInfosAt(s, p, n)[i], p + TOKEN_INFO_SIZE * i + TOKEN_INFO_SIZE))
  {
    TableElement(s, p, n, TOKEN_INFO_SIZE, TokenInfoAt, i);
  }

  /** The table has n elements, each what DecodeTokenInfo reads at its own offset. */
  lemma TokenInfosLayout(s: seq<byte>, p: nat, n: nat)
    requires p + TOKEN_INFO_SIZE * n <= |s|
    ensures |TokenInfosAt(s, p, n)| == n
    ensures forall i | 0 <= i < n ::
      DecodeTokenInfo(s, p + TOKEN_INFO_SIZE * i) == Success(Decoded(TokenInfosAt(s, p, n)[i], p + TOKEN_INFO_SIZE * i + TOKEN_INFO_SIZE))
  {
    forall i | 0 <= i < n
      ensures DecodeTokenInfo(s, p + TOKEN_INFO_SIZE * i) == Success(Decoded(TokenInfosAt(s, p, n)[i], p + TOKEN_INFO_SIZE * i + TOKEN_INFO_SIZE))
    {
      TokenInfosElement(s, p, n, i);
    }
  }

  /** One token slot of a group: mint, root bank, one-byte decimals, 7 reserved bytes. */
  function DecodeTokenInfo(s: seq<byte>, pos: nat): (r: Parsed<TokenInfo>)
    ensures r.Success? <==> pos + TOKEN_INFO_SIZE <= |s|
    ensures r.Success? ==> r.value.next == pos + 72
    ensures r.Success? ==> r.value.value == TokenInfoAt(s, pos)
    ensures r.Failure? ==> r.error == TruncatedInput(pos, TOKEN_INFO_SIZE)
  {
    if pos + TOKEN_INFO_SIZE <= |s| then Success(Decoded(TokenInfoAt(s, pos), pos + TOKEN_INFO_SIZE))
    else Failure(TruncatedInput(pos, TOKEN_INFO_SIZE))
  }

  /** The fields of a TokenInfo, each what its own adapter reads at its offset. */
  lemma TokenInfoLayout(s: seq<byte>, pos: nat)
    requires pos + TOKEN_INFO_SIZE <= |s|
    ensures var t := TokenInfoAt(s, pos);
      ReadKey(s, pos) == Success(Decoded(t.mint, pos + 32))
      && ReadKey(s, pos + 32) == Success(Decoded(t.rootBank, pos + 64))
      && ReadUInt(s, pos + 64, 1) == Success(Decoded(t.decimals, pos + 65))
  {
  }

  /** Encoding a token slot: both keys present, decimals below 256, reserved bytes zero. */
  function BuildTokenInfo(t: TokenInfo): (r: Result<seq<byte>, Error>)
    ensures r.Success? <==> t.mint.Some? && t.rootBank.Some? && t.decimals < 256
    ensures r.Success? ==> |r.value| == TOKEN_INFO_SIZE
  {
    var mint :- BuildKey(t.mint);
    var rootBank :- BuildKey(t.rootBank);
    var decimals :- BuildUInt(t.decimals, 1);
    Success(mint + rootBank + decimals + Zeros(7))
  }

  /** A token slot with two non-zero keys survives encoding then decoding. */
  lemma TokenInfoRoundTrip(t: TokenInfo)
    requires t.mint.Some? && t.mint.value != Zeros(KEY_SIZE)
    requires t.rootBank.Some? && t.rootBank.value != Zeros(KEY_SIZE)
    requires t.decimals < 256
    ensures BuildTokenInfo(t).Success?
    ensures DecodeTokenInfo(BuildTokenInfo(t).value, 0) == Success(Decoded(t, TOKEN_INFO_SIZE))
  {
    var decimals := BuildUInt(t.decimals, 1).value;
    var b := BuildTokenInfo(t).value;
    assert b[0..32] == t.mint.value;
    assert b[32..64] == t.rootBank.value;
    assert b[64] == decimals[0];
    assert UIntLE(decimals) == decimals[0];
  }

  /** A token slot whose keys are present survives decoding then encoding, reserved bytes cleared. */
  lemma TokenInfoWindowRoundTrip(s: seq<byte>, pos: nat)
    requires pos + TOKEN_INFO_SIZE <= |s|
    requires s[pos..pos + 32] != Zeros(KEY_SIZE) && s[pos + 32..pos + 64] != Zeros(KEY_SIZE)
    ensures BuildTokenInfo(DecodeTokenInfo(s, pos).value.value) == Success(s[pos..pos + 65] + Zeros(7))
  {
    var t := TokenInfoAt(s, pos);
    var decimals := BuildUInt(t.decimals, 1).value;
    assert UIntLE(decimals) == decimals[0];
    assert decimals == [s[pos + 64]];
    assert s[pos..pos + 65] == s[pos..pos + 32] + s[pos + 32..pos + 64] + [s[pos + 64]];
  }

  datatype SpotMarketInfo = SpotMarketInfo(
    spotMarket: Key,
    maintAssetWeight: Fixed,
    initAssetWeight: Fixed,
    maintLiabWeight: Fixed,
    initLiabWeight: Fixed,
    liquidationFee: Fixed)

  const SPOT_MARKET_INFO_SIZE: nat := 112

  function SpotMarketInfoAt(s: seq<byte>, p: nat): SpotMarketInfo
    requires p + SPOT_MARKET_INFO_SIZE <= |s|
  {
    SpotMarketInfo(KeyAt(s, p), I80F48At(s, p + 32), I80F48At(s, p + 48), I80F48At(s, p + 64),
      I80F48At(s, p + 80), I80F48At(s, p + 96))
  }

  /** n spot-market slots laid end to end from p. */
  function SpotMarketInfosAt(s: seq<byte>, p: nat, n: nat): seq<SpotMarketInfo>
    requires p + SPOT_MARKET_INFO_SIZE * n <= |s|
  {
    Table(s, p, n, SPOT_MARKET_INFO_SIZE, SpotMarketInfoAt)
  }

  /** Element i of the table is what DecodeSpotMarketInfo reads at p + SPOT_MARKET_INFO_SIZE * i. */
  lemma SpotMarketInfosElement(s: seq<byte>, p: nat, n: nat, i: nat)
    requires p + SPOT_MARKET_INFO_SIZE * n <= |s| && i < n
    ensures DecodeSpotMarketInfo(s, p + SPOT_MARKET_INFO_SIZE * i) == Success(Decoded(SpotMarketInfosAt(s, p, n)[i], p + SPOT_MARKET_INFO_SIZE * i + SPOT_MARKET_INFO_SIZE))
  {
    TableElement(s, p, n, SPOT_MARKET_INFO_SIZE, SpotMarketInfoAt, i);
  }

  /** The table has n elements, each what DecodeSpotMarketInfo reads at its own offset. */
  lemma SpotMarketInfosLayout(s: seq<byte>, p: nat, n: nat)
    requires p + SPOT_MARKET_INFO_SIZE * n <= |s|
    ensures |SpotMarketInfosAt(s, p, n)| == n
    ensures forall i | 0 <= i < n ::
      DecodeSpotMarketInfo(s, p + SPOT_MARKET_INFO_SIZE * i) == Success(Decoded(SpotMarketInfosAt(s, p, n)[i], p + SPOT_MARKET_INFO_SIZE * i + SPOT_MARKET_INFO_SIZE))
  {
    forall i | 0 <= i < n
      ensures DecodeSpotMarketInfo(s, p + SPOT_MARKET_INFO_SIZE * i) == Success(Decoded(SpotMarketInfosAt(s, p, n)[i], p + SPOT_MARKET_INFO_SIZE * i + SPOT_MARKET_INFO_SIZE))
    {
      SpotMarketInfosElement(s, p, n, i);
    }
  }

  /** One spot-market slot of a group: the market key and five I80F48 weights and fees. */
  function DecodeSpotMarketInfo(s: seq<byte>, pos: nat): (r: Parsed<SpotMarketInfo>)
    ensures r.Success? <==> pos + SPOT_MARKET_INFO_SIZE <= |s|
    ensures r.Success? ==> r.value.next == pos + 112
    ensures r.Success? ==> r.value.value == SpotMarketInfoAt(s, pos)
    ensures r.Failure? ==> r.error == TruncatedInput(pos, SPOT_MARKET_INFO_SIZE)
  {
    if pos + SPOT_MARKET_INFO_SIZE <= |s| then
      Success(Decoded(SpotMarketInfoAt(s, pos), pos + SPOT_MARKET_INFO_SIZE))
    else Failure(TruncatedInput(pos, SPOT_MARKET_INFO_SIZE))
  }

  /** The fields of a SpotMarketInfo, each what its own adapter reads at its offset. */
  lemma SpotMarketInfoLayout(s: seq<byte>, pos: nat)
    requires pos + SPOT_MARKET_INFO_SIZE <= |s|
    ensures var m := SpotMarketInfoAt(s, pos);
      ReadKey(s, pos) == Success(Decoded(m.spotMarket, pos + 32))
      && ReadI80F48Signed(s, pos + 32) == Success(Decoded(m.maintAssetWeight, pos + 48))
      && ReadI80F48Signed(s, pos + 48) == Success(Decoded(m.initAssetWeight, pos + 64))
      && ReadI80F48Signed(s, pos + 64) == Success(Decoded(m.maintLiabWeight, pos + 80))
      && ReadI80F48Signed(s, pos + 80) == Success(Decoded(m.initLiabWeight, pos + 96))
      && ReadI80F48Signed(s, pos + 96) == Success(Decoded(m.liquidationFee, pos + 112))
  {
  }

  datatype PerpMarketInfo = PerpMarketInfo(
    perpMarket: Key,
    maintAssetWeight: Fixed,
    initAssetWeight: Fixed,
    maintLiabWeight: Fixed,
    initLiabWeight: Fixed,
    liquidationFee: Fixed,
    makerFee: Fixed,
    takerFee: Fixed,
    baseLotSize: int,
    quoteLotSize: int)

  const PERP_MARKET_INFO_SIZE: nat := 160

  function PerpMarketInfoAt(s: seq<byte>, p: nat): PerpMarketInfo
    requires p + PERP_MARKET_INFO_SIZE <= |s|
  {
    PerpMarketInfo(KeyAt(s, p), I80F48At(s, p + 32), I80F48At(s, p + 48), I80F48At(s, p + 64),
      I80F48At(s, p + 80), I80F48At(s, p + 96), I80F48At(s, p + 112), I80F48At(s, p + 128),
      SIntAt(s, p + 144, 8), SIntAt(s, p + 152, 8))
  }

  /** n perp-market slots laid end to end from p. */
  function PerpMarketInfosAt(s: seq<byte>, p: nat, n: nat): seq<PerpMarketInfo>
    requires p + PERP_MARKET_INFO_SIZE * n <= |s|
  {
    Table(s, p, n, PERP_MARKET_INFO_SIZE, PerpMarketInfoAt)
  }

  /** Element i of the table is what DecodePerpMarketInfo reads at p + PERP_MARKET_INFO_SIZE * i. */
  lemma PerpMarketInfosElement(s: seq<byte>, p: nat, n: nat, i: nat)
    requires p + PERP_MARKET_INFO_SIZE * n <= |s| && i < n
    ensures DecodePerpMarketInfo(s, p + PERP_MARKET_INFO_SIZE * i) == Success(Decoded(PerpMarketInfosAt(s, p, n)[i], p + PERP_MARKET_INFO_SIZE * i + PERP_MARKET_INFO_SIZE))
  {
    TableElement(s, p, n, PERP_MARKET_INFO_SIZE, PerpMarketInfoAt, i);
  }

  /** The table has n elements, each what DecodePerpMarketInfo reads at its own offset. */
  lemma PerpMarketInfosLayout(s: seq<byte>, p: nat, n: nat)
    requires p + PERP_MARKET_INFO_SIZE * n <= |s|
    ensures |PerpMarketInfosAt(s, p, n)| == n
    ensures forall i | 0 <= i < n ::
      DecodePerpMarketInfo(s, p + PERP_MARKET_INFO_SIZE * i) == Success(Decoded(PerpMarketInfosAt(s, p, n)[i], p + PERP_MARKET_INFO_SIZE * i + PERP_MARKET_INFO_SIZE))
  {
    forall i | 0 <= i < n
      ensures DecodePerpMarketInfo(s, p + PERP_MARKET_INFO_SIZE * i) == Success(Decoded(PerpMarketInfosAt(s, p, n)[i], p + PERP_MARKET_INFO_SIZE * i + PERP_MARKET_INFO_SIZE))
    {
      PerpMarketInfosElement(s, p, n, i);
    }
  }

  /** One perp-market slot of a group: the market key, seven I80F48 weights and fees,
      and the signed base and quote lot sizes. */
  function DecodePerpMarketInfo(s: seq<byte>, pos: nat): (r: Parsed<PerpMarketInfo>)
    ensures r.Success? <==> pos + PERP_MARKET_INFO_SIZE <= |s|
    ensures r.Success? ==> r.value.next == pos + 160
    ensures r.Success? ==> r.value.value == PerpMarketInfoAt(s, pos)
    ensures r.Failure? ==> r.error == TruncatedInput(pos, PERP_MARKET_INFO_SIZE)
  {
    if pos + PERP_MARKET_INFO_SIZE <= |s| then
      Success(Decoded(PerpMarketInfoAt(s, pos), pos + PERP_MARKET_INFO_SIZE))
    else Failure(TruncatedInput(pos, PERP_MARKET_INFO_SIZE))
  }

  /** The fields of a PerpMarketInfo, each what its own adapter reads at its offset. */
  lemma PerpMarketInfoLayout(s: seq<byte>, pos: nat)
    requires pos + PERP_MARKET_INFO_SIZE <= |s|
    ensures var m := PerpMarketInfoAt(s, pos);
      ReadKey(s, pos) == Success(Decoded(m.perpMarket, pos + 32))
      && ReadI80F48Signed(s, pos + 32) == Success(Decoded(m.maintAssetWeight, pos + 48))
      && ReadI80F48Signed(s, pos + 48) == Success(Decoded(m.initAssetWeight, pos + 64))
      && ReadI80F48Signed(s, pos + 64) == Success(Decoded(m.maintLiabWeight, pos + 80))
      && ReadI80F48Signed(s, pos + 80) == Success(Decoded(m.initLiabWeight, pos + 96))
      && ReadI80F48Signed(s, pos + 96) == Success(Decoded(m.liquidationFee, pos + 112))
      && ReadI80F48Signed(s, pos + 112) == Success(Decoded(m.makerFee, pos + 128))
      && ReadI80F48Signed(s, pos + 128) == Success(Decoded(m.takerFee, pos + 144))
      && ReadSInt(s, pos + 144, 8) == Success(Decoded(m.baseLotSize, pos + 152))
      && ReadSInt(s, pos + 152, 8) == Success(Decoded(m.quoteLotSize, pos + 160))
  {
  }

  datatype Group = Group(
    metaData: Header.MetaData,
    numOracles: nat,
    tokens: seq<TokenInfo>,
    spotMarkets: seq<SpotMarketInfo>,
    perpMarkets: seq<PerpMarketInfo>,
    oracles: seq<Key>,
    signerNonce: nat,
    signerKey: Key,
    admin: Key,
    dexProgramId: Key,
    cache: Key,
    validInterval: nat,
    daoVault: Key,
    srmVault: Key,
    msrmVault: Key)

  const GROUP_SIZE: nat := 11984

  function GroupAt(s: seq<byte>, p: nat): Group
    requires p + GROUP_SIZE <= |s|
  {
    Group(Header.MetaDataAt(s, p), UIntAt(s, p + 8, 8),
      TokenInfosAt(s, p + 16, 32),
      SpotMarketInfosAt(s, p + 2320, 31),
      PerpMarketInfosAt(s, p + 5792, 31),
      KeysAt(s, p + 10752, 31),
      UIntAt(s, p + 11744, 8), KeyAt(s, p + 11752), KeyAt(s, p + 11784), KeyAt(s, p + 11816),
      KeyAt(s, p + 11848), UIntAt(s, p + 11880, 8), KeyAt(s, p + 11888), KeyAt(s, p + 11920),
      KeyAt(s, p + 11952))
  }

  /** A mango group: the header, the oracle count, the token, spot-market and
      perp-market tables, the oracle keys, and the group-wide nonce, keys, update
      interval and vaults. */
  function DecodeGroup(s: seq<byte>, pos: nat): (r: Parsed<Group>)
    ensures r.Success? <==> pos + GROUP_SIZE <= |s|
    ensures r.Success? ==> r.value.next == pos + 11984
    ensures r.Success? ==> r.value.value == GroupAt(s, pos)
    ensures r.Failure? ==> r.error == TruncatedInput(pos, GROUP_SIZE)
  {
    if pos + GROUP_SIZE <= |s| then Success(Decoded(GroupAt(s, pos), pos + GROUP_SIZE))
    else Failure(TruncatedInput(pos, GROUP_SIZE))
  }

  /** The fields of a Group, each what its own adapter reads at its offset. */
  lemma GroupLayout(s: seq<byte>, pos: nat)
    requires pos + GROUP_SIZE <= |s|
    ensures var g := GroupAt(s, pos);
      Header.DecodeMetaData(s, pos) == Success(Decoded(g.metaData, pos + 8))
      && ReadUInt(s, pos + 8, 8) == Success(Decoded(g.numOracles, pos + 16))
      && g.tokens == TokenInfosAt(s, pos + 16, MAX_TOKENS)
      && g.spotMarkets == SpotMarketInfosAt(s, pos + 2320, MAX_PAIRS)
      && g.perpMarkets == PerpMarketInfosAt(s, pos + 5792, MAX_PAIRS)
      && g.oracles == KeysAt(s, pos + 10752, MAX_PAIRS)
      && ReadUInt(s, pos + 11744, 8) == Success(Decoded(g.signerNonce, pos + 11752))
      && ReadKey(s, pos + 11752) == Success(Decoded(g.signerKey, pos + 11784))
      && ReadKey(s, pos + 11784) == Success(Decoded(g.admin, pos + 11816))
      && ReadKey(s, pos + 11816) == Success(Decoded(g.dexProgramId, pos + 11848))
      && ReadKey(s, pos + 11848) == Success(Decoded(g.cache, pos + 11880))
      && ReadUInt(s, pos + 11880, 8) == Success(Decoded(g.validInterval, pos + 11888))
      && ReadKey(s, pos + 11888) == Success(Decoded(g.daoVault, pos + 11920))
      && ReadKey(s, pos + 11920) == Success(Decoded(g.srmVault, pos + 11952))
      && ReadKey(s, pos + 11952) == Success(Decoded(g.msrmVault, pos + 11984))
  {
  }

  // ---------------------------------------------------------------- banks

  datatype RootBank = RootBank(
    metaData: Header.MetaData,
    optimalUtil: Fixed,
    optimalRate: Fixed,
    maxRate: Fixed,
    numNodeBanks: nat,
    nodeBanks: seq<Key>,
    depositIndex: Fixed,
    borrowIndex: Fixed,
    lastUpdated: nat)

  const ROOT_BANK_SIZE: nat := 424

  function RootBankAt(s: seq<byte>, p: nat): RootBank
    requires p + ROOT_BANK_SIZE <= |s|
  {
    RootBank(Header.MetaDataAt(s, p), I80F48At(s, p + 8), I80F48At(s, p + 24), I80F48At(s, p + 40),
      UIntAt(s, p + 56, 8), KeysAt(s, p + 64, 8),
      I80F48At(s, p + 320), I80F48At(s, p + 336), UIntAt(s, p + 352, 8))
  }

  /** A root bank: header, three I80F48 rate parameters, the node-bank count and its
      eight node-bank keys, the deposit and borrow indexes, the update time and 64
      reserved bytes. An update time past the last representable date fails the record. */
  function DecodeRootBank(s: seq<byte>, pos: nat): (r: Parsed<RootBank>)
    ensures r.Success? <==> pos + ROOT_BANK_SIZE <= |s| && ReadTimestamp(s, pos + 352).Success?
    ensures r.Success? ==> r.value.next == pos + 424
    ensures r.Success? ==> r.value.value == RootBankAt(s, pos)
    ensures pos + ROOT_BANK_SIZE > |s| ==> r == Failure(TruncatedInput(pos, ROOT_BANK_SIZE))
    ensures pos + ROOT_BANK_SIZE <= |s| && ReadTimestamp(s, pos + 352).Failure? ==>
      r == Failure(TimestampOutOfRange(pos + 352, UIntAt(s, pos + 352, 8)))
  {
    if pos + ROOT_BANK_SIZE > |s| then Failure(TruncatedInput(pos, ROOT_BANK_SIZE))
    else
      var _ :- ReadTimestamp(s, pos + 352);
      Success(Decoded(RootBankAt(s, pos), pos + ROOT_BANK_SIZE))
  }

  /** The fields of a RootBank, each what its own adapter reads at its offset. */
  lemma RootBankLayout(s: seq<byte>, pos: nat)
    requires pos + ROOT_BANK_SIZE <= |s|
    ensures var b := RootBankAt(s, pos);
      Header.DecodeMetaData(s, pos) == Success(Decoded(b.metaData, pos + 8))
      && ReadI80F48Signed(s, pos + 8) == Success(Decoded(b.optimalUtil, pos + 24))
      && ReadI80F48Signed(s, pos + 24) == Success(Decoded(b.optimalRate, pos + 40))
      && ReadI80F48Signed(s, pos + 40) == Success(Decoded(b.maxRate, pos + 56))
      && ReadUInt(s, pos + 56, 8) == Success(Decoded(b.numNodeBanks, pos + 64))
      && b.nodeBanks == KeysAt(s, pos + 64, MAX_NODE_BANKS)
      && ReadI80F48Signed(s, pos + 320) == Success(Decoded(b.depositIndex, pos + 336))
      && ReadI80F48Signed(s, pos + 336) == Success(Decoded(b.borrowIndex, pos + 352))
      && ReadUInt(s, pos + 352, 8) == Success(Decoded(b.lastUpdated, pos + 360))
      && (ReadTimestamp(s, pos + 352).Success? ==>
            ReadTimestamp(s, pos + 352) == Success(Decoded(b.lastUpdated, pos + 360)))
  {
  }

  datatype NodeBank = NodeBank(metaData: Header.MetaData, deposits: Fixed, borrows: Fixed, vault: Key)

  const NODE_BANK_SIZE: nat := 72

  function NodeBankAt(s: seq<byte>, p: nat): NodeBank
    requires p + NODE_BANK_SIZE <= |s|
  {
    NodeBank(Header.MetaDataAt(s, p), I80F48At(s, p + 8), I80F48At(s, p + 24), KeyAt(s, p + 40))
  }

  /** A node bank: header, I80F48 deposits and borrows, the vault key. */
  function DecodeNodeBank(s: seq<byte>, pos: nat): (r: Parsed<NodeBank>)
    ensures r.Success? <==> pos + NODE_BANK_SIZE <= |s|
    ensures r.Success? ==> r.value.next == pos + 72
    ensures r.Success? ==> r.value.value == NodeBankAt(s, pos)
    ensures r.Failure? ==> r.error == TruncatedInput(pos, NODE_BANK_SIZE)
  {
    if pos + NODE_BANK_SIZE <= |s| then Success(Decoded(NodeBankAt(s, pos), pos + NODE_BANK_SIZE))
    else Failure(TruncatedInput(pos, NODE_BANK_SIZE))
  }

  /** The fields of a NodeBank, each what its own adapter reads at its offset. */
  lemma NodeBankLayout(s: seq<byte>, pos: nat)
    requires pos + NODE_BANK_SIZE <= |s|
    ensures var b := NodeBankAt(s, pos);
      Header.DecodeMetaData(s, pos) == Success(Decoded(b.metaData, pos + 8))
      && ReadI80F48Signed(s, pos + 8) == Success(Decoded(b.deposits, pos + 24))
      && ReadI80F48Signed(s, pos + 24) == Success(Decoded(b.borrows, pos + 40))
      && ReadKey(s, pos + 40) == Success(Decoded(b.vault, pos + 72))
  {
  }

  // ---------------------------------------------------------------- margin accounts

  datatype PerpOpenOrders = PerpOpenOrders(
    bidsQuantity: int,
    asksQuantity: int,
    freeSlotBits: nat,
    isBidBits: nat,
    orders: seq<int>,
    clientOrderIds: seq<int>)

  const PERP_OPEN_ORDERS_SIZE: nat := 792

  function PerpOpenOrdersAt(s: seq<byte>, p: nat): PerpOpenOrders
    requires p + PERP_OPEN_ORDERS_SIZE <= |s|
  {
    PerpOpenOrders(SIntAt(s, p, 8), SIntAt(s, p + 8, 8), UIntAt(s, p + 16, 4), UIntAt(s, p + 20, 4),
      SIntsAt(s, p + 24, 32, 16),
      SIntsAt(s, p + 536, 32, 8))
  }

  /** The perp orders of one market in a margin account: signed bid and ask totals,
      two 32-bit slot masks, 32 signed 128-bit order ids and 32 signed client ids. */
  function DecodePerpOpenOrders(s: seq<byte>, pos: nat): (r: Parsed<PerpOpenOrders>)
    ensures r.Success? <==> pos + PERP_OPEN_ORDERS_SIZE <= |s|
    ensures r.Success? ==> r.value.next == pos + 792
    ensures r.Success? ==> r.value.value == PerpOpenOrdersAt(s, pos)
    ensures r.Failure? ==> r.error == TruncatedInput(pos, PERP_OPEN_ORDERS_SIZE)
  {
    if pos + PERP_OPEN_ORDERS_SIZE <= |s| then
      Success(Decoded(PerpOpenOrdersAt(s, pos), pos + PERP_OPEN_ORDERS_SIZE))
    else Failure(TruncatedInput(pos, PERP_OPEN_ORDERS_SIZE))
  }

  /** The fields of a PerpOpenOrders, each what its own adapter reads at its offset. */
  lemma PerpOpenOrdersLayout(s: seq<byte>, pos: nat)
    requires pos + PERP_OPEN_ORDERS_SIZE <= |s|
    ensures var o := PerpOpenOrdersAt(s, pos);
      ReadSInt(s, pos, 8) == Success(Decoded(o.bidsQuantity, pos + 8))
      && ReadSInt(s, pos + 8, 8) == Success(Decoded(o.asksQuantity, pos + 16))
      && ReadUInt(s, pos + 16, 4) == Success(Decoded(o.freeSlotBits, pos + 20))
      && ReadUInt(s, pos + 20, 4) == Success(Decoded(o.isBidBits, pos + 24))
      && o.orders == SIntsAt(s, pos + 24, MAX_TOKENS, 16)
      && o.clientOrderIds == SIntsAt(s, pos + 536, MAX_TOKENS, 8)
  {
  }

  /** Every quantity and id of a perp orders block within its width, and both id
      arrays exactly 32 long. */
  predicate PerpOpenOrdersFits(o: PerpOpenOrders)
  {
    -SignedBound(8) <= o.bidsQuantity < SignedBound(8)
    && -SignedBound(8) <= o.asksQuantity < SignedBound(8)
    && o.freeSlotBits < Pow256(4) && o.isBidBits < Pow256(4)
    && |o.orders| == MAX_TOKENS
    && (forall i | 0 <= i < |o.orders| :: -SignedBound(16) <= o.orders[i] < SignedBound(16))
    && |o.clientOrderIds| == MAX_TOKENS
    && (forall i | 0 <= i < |o.clientOrderIds| :: -SignedBound(8) <= o.clientOrderIds[i] < SignedBound(8))
  }

  /** The bytes of a perp orders block whose numbers fit. */
  function PerpOpenOrdersBytes(o: PerpOpenOrders): (b: seq<byte>)
    requires PerpOpenOrdersFits(o)
    ensures |b| == PERP_OPEN_ORDERS_SIZE
  {
    ElementsLength(o.orders, SIntBuilder(16), 16);
    ElementsLength(o.clientOrderIds, SIntBuilder(8), 8);
    (BuildSInt(o.bidsQuantity, 8).value + BuildSInt(o.asksQuantity, 8).value
      + BuildUInt(o.freeSlotBits, 4).value + BuildUInt(o.isBidBits, 4).value)
    + BuildArray(o.orders, MAX_TOKENS, SIntBuilder(16)).value
    + BuildArray(o.clientOrderIds, MAX_TOKENS, SIntBuilder(8)).value
  }

  /** Encoding a perp orders block: every number fitting its field, the first that
      does not fit giving the error. */
  function BuildPerpOpenOrders(o: PerpOpenOrders): (r: Result<seq<byte>, Error>)
    ensures r.Success? <==> PerpOpenOrdersFits(o)
    ensures r.Success? ==> r.value == PerpOpenOrdersBytes(o) && |r.value| == PERP_OPEN_ORDERS_SIZE
  {
    var _ :- BuildSInt(o.bidsQuantity, 8);
    var _ :- BuildSInt(o.asksQuantity, 8);
    var _ :- BuildUInt(o.freeSlotBits, 4);
    var _ :- BuildUInt(o.isBidBits, 4);
    var _ :- BuildArray(o.orders, MAX_TOKENS, SIntBuilder(16));
    var _ :- BuildArray(o.clientOrderIds, MAX_TOKENS, SIntBuilder(8));
    Success(PerpOpenOrdersBytes(o))
  }

  /** The encoding of a perp orders block is its quantities and masks, its order ids
      and its client ids in turn. */
  lemma PerpOpenOrdersBytesParts(o: PerpOpenOrders)
    requires PerpOpenOrdersFits(o)
    ensures var b := PerpOpenOrdersBytes(o);
      b[0..24] == BuildSInt(o.bidsQuantity, 8).value + BuildSInt(o.asksQuantity, 8).value
        + BuildUInt(o.freeSlotBits, 4).value + BuildUInt(o.isBidBits, 4).value
      && b[24..536] == BuildArray(o.orders, MAX_TOKENS, SIntBuilder(16)).value
      && b[536..792] == BuildArray(o.clientOrderIds, MAX_TOKENS, SIntBuilder(8)).value
  {
    var head := BuildSInt(o.bidsQuantity, 8).value + BuildSInt(o.asksQuantity, 8).value
      + BuildUInt(o.freeSlotBits, 4).value + BuildUInt(o.isBidBits, 4).value;
    var orders := BuildArray(o.orders, MAX_TOKENS, SIntBuilder(16)).value;
    var clientIds := BuildArray(o.clientOrderIds, MAX_TOKENS, SIntBuilder(8)).value;
    ElementsLength(o.orders, SIntBuilder(16), 16);
    ElementsLength(o.clientOrderIds, SIntBuilder(8), 8);
    assert PerpOpenOrdersBytes(o) == head + orders + clientIds;
    ConcatThirds(head, orders, clientIds);
  }

  /** The quantities and masks of an encoded perp orders block read back. */
  lemma PerpOpenOrdersHeadReadsBack(b: seq<byte>, o: PerpOpenOrders)
    requires PerpOpenOrdersFits(o)
    requires |b| >= 24
    requires b[0..24] == BuildSInt(o.bidsQuantity, 8).value + BuildSInt(o.asksQuantity, 8).value
      + BuildUInt(o.freeSlotBits, 4).value + BuildUInt(o.isBidBits, 4).value
    ensures SIntAt(b, 0, 8) == o.bidsQuantity && SIntAt(b, 8, 8) == o.asksQuantity
    ensures UIntAt(b, 16, 4) == o.freeSlotBits && UIntAt(b, 20, 4) == o.isBidBits
  {
    var h := b[0..24];
    SliceOfSlice(b, 0, 24, 0, 8);
    SliceOfSlice(b, 0, 24, 8, 16);
    SliceOfSlice(b, 0, 24, 16, 20);
    SliceOfSlice(b, 0, 24, 20, 24);
    assert h[0..8] == BuildSInt(o.bidsQuantity, 8).value;
    assert h[8..16] == BuildSInt(o.asksQuantity, 8).value;
    assert h[16..20] == BuildUInt(o.freeSlotBits, 4).value;
    assert h[20..24] == BuildUInt(o.isBidBits, 4).value;
  }

  /** Bytes whose quantities and masks read back as those of a perp orders block, and
      whose id arrays are its encoded ids, decode as that block. */
  lemma PerpOpenOrdersReadsBack(b: seq<byte>, o: PerpOpenOrders)
    requires PerpOpenOrdersFits(o)
    requires |b| == PERP_OPEN_ORDERS_SIZE
    requires SIntAt(b, 0, 8) == o.bidsQuantity && SIntAt(b, 8, 8) == o.asksQuantity
    requires UIntAt(b, 16, 4) == o.freeSlotBits && UIntAt(b, 20, 4) == o.isBidBits
    requires b[24..536] == BuildArray(o.orders, MAX_TOKENS, SIntBuilder(16)).value
    requires b[536..792] == BuildArray(o.clientOrderIds, MAX_TOKENS, SIntBuilder(8)).value
    ensures PerpOpenOrdersAt(b, 0) == o
  {
    SIntsRoundTrip(b, 24, o.orders, 32, 16);
    SIntsRoundTrip(b, 536, o.clientOrderIds, 32, 8);
  }

  /** A perp orders block whose numbers fit survives encoding then decoding. */
  lemma PerpOpenOrdersRoundTrip(o: PerpOpenOrders)
    requires PerpOpenOrdersFits(o)
    ensures BuildPerpOpenOrders(o).Success?
    ensures DecodePerpOpenOrders(BuildPerpOpenOrders(o).value, 0)
      == Success(Decoded(o, PERP_OPEN_ORDERS_SIZE))
  {
    var b := PerpOpenOrdersBytes(o);
    PerpOpenOrdersBytesParts(o);
    PerpOpenOrdersHeadReadsBack(b, o);
    PerpOpenOrdersReadsBack(b, o);
  }

  /** A perp orders block read from a window fits its fields, and its parts encode
      back to the window's parts. */
  lemma PerpOpenOrdersWindowParts(s: seq<byte>, pos: nat)
    requires pos + PERP_OPEN_ORDERS_SIZE <= |s|
    ensures var o := PerpOpenOrdersAt(s, pos);
      PerpOpenOrdersFits(o)
      && BuildSInt(o.bidsQuantity, 8).value + BuildSInt(o.asksQuantity, 8).value
        + BuildUInt(o.freeSlotBits, 4).value + BuildUInt(o.isBidBits, 4).value == s[pos..pos + 24]
      && BuildArray(o.orders, MAX_TOKENS, SIntBuilder(16)).value == s[pos + 24..pos + 536]
      && BuildArray(o.clientOrderIds, MAX_TOKENS, SIntBuilder(8)).value == s[pos + 536..pos + 792]
  {
    var o := PerpOpenOrdersAt(s, pos);
    SIntWindowRoundTrip(s, pos, 8);
    SIntWindowRoundTrip(s, pos + 8, 8);
    UIntWindowRoundTrip(s, pos + 16, 4);
    UIntWindowRoundTrip(s, pos + 20, 4);
    SIntsWindowRoundTrip(s, pos + 24, 32, 16);
    SIntsWindowRoundTrip(s, pos + 536, 32, 8);
    forall i | 0 <= i < |o.orders|
      ensures -SignedBound(16) <= o.orders[i] < SignedBound(16)
    {
      assert SIntBuilder(16)(o.orders[i]).Success?;
    }
    forall i | 0 <= i < |o.clientOrderIds|
      ensures -SignedBound(8) <= o.clientOrderIds[i] < SignedBound(8)
    {
      assert SIntBuilder(8)(o.clientOrderIds[i]).Success?;
    }
    assert s[pos..pos + 24] == s[pos..pos + 8] + s[pos + 8..pos + 16] + s[pos + 16..pos + 20] + s[pos + 20..pos + 24];
  }

  /** A perp orders block read from any window encodes back to exactly that window. */
  lemma PerpOpenOrdersWindowRoundTrip(s: seq<byte>, pos: nat)
    requires pos + PERP_OPEN_ORDERS_SIZE <= |s|
    ensures BuildPerpOpenOrders(DecodePerpOpenOrders(s, pos).value.value) == Success(s[pos..pos + PERP_OPEN_ORDERS_SIZE])
  {
    var o := PerpOpenOrdersAt(s, pos);
    PerpOpenOrdersWindowParts(s, pos);
    PerpOpenOrdersBytesParts(o);
    var b := PerpOpenOrdersBytes(o);
    assert b == b[0..24] + b[24..536] + b[536..792];
    assert s[pos..pos + 792] == s[pos..pos + 24] + s[pos + 24..pos + 536] + s[pos + 536..pos + 792];
  }

  datatype PerpAccount = PerpAccount(
    basePosition: int,
    quotePosition: Fixed,
    longSettledFunding: Fixed,
    shortSettledFunding: Fixed,
    openOrders: PerpOpenOrders,
    liquidityPoints: Fixed)

  const PERP_ACCOUNT_SIZE: nat := 864

  function PerpAccountAt(s: seq<byte>, p: nat): PerpAccount
    requires p + PERP_ACCOUNT_SIZE <= |s|
  {
    PerpAccount(SIntAt(s, p, 8), I80F48At(s, p + 8), I80F48At(s, p + 24), I80F48At(s, p + 40),
      PerpOpenOrdersAt(s, p + 56), I80F48At(s, p + 848))
  }

  /** n perp accounts laid end to end from p. */
  function PerpAccountsAt(s: seq<byte>, p: nat, n: nat): seq<PerpAccount>
    requires p + PERP_ACCOUNT_SIZE * n <= |s|
  {
    Table(s, p, n, PERP_ACCOUNT_SIZE, PerpAccountAt)
  }

  /** Element i of the table is what DecodePerpAccount reads at p + PERP_ACCOUNT_SIZE * i. */
  lemma PerpAccountsElement(s: seq<byte>, p: nat, n: nat, i: nat)
    requires p + PERP_ACCOUNT_SIZE * n <= |s| && i < n
    ensures DecodePerpAccount(s, p + PERP_ACCOUNT_SIZE * i) == Success(Decoded(PerpAccountsAt(s, p, n)[i], p + PERP_ACCOUNT_SIZE * i + PERP_ACCOUNT_SIZE))
  {
    TableElement(s, p, n, PERP_ACCOUNT_SIZE, PerpAccountAt, i);
  }

  /** The table has n elements, each what DecodePerpAccount reads at its own offset. */
  lemma PerpAccountsLayout(s: seq<byte>, p: nat, n: nat)
    requires p + PERP_ACCOUNT_SIZE * n <= |s|
    ensures |PerpAccountsAt(s, p, n)| == n
    ensures forall i | 0 <= i < n ::
      DecodePerpAccount(s, p + PERP_ACCOUNT_SIZE * i) == Success(Decoded(PerpAccountsAt(s, p, n)[i], p + PERP_ACCOUNT_SIZE * i + PERP_ACCOUNT_SIZE))
  {
    forall i | 0 <= i < n
      ensures DecodePerpAccount(s, p + PERP_ACCOUNT_SIZE * i) == Success(Decoded(PerpAccountsAt(s, p, n)[i], p + PERP_ACCOUNT_SIZE * i + PERP_ACCOUNT_SIZE))
    {
      PerpAccountsElement(s, p, n, i);
    }
  }

  /** The position in one perp market: signed base position, I80F48 quote position and
      settled funding, the nested perp open orders, and the liquidity points. */
  function DecodePerpAccount(s: seq<byte>, pos: nat): (r: Parsed<PerpAccount>)
    ensures r.Success? <==> pos + PERP_ACCOUNT_SIZE <= |s|
    ensures r.Success? ==> r.value.next == pos + 864
    ensures r.Success? ==> r.value.value == PerpAccountAt(s, pos)
    ensures r.Failure? ==> r.error == TruncatedInput(pos, PERP_ACCOUNT_SIZE)
  {
    if pos + PERP_ACCOUNT_SIZE <= |s| then Success(Decoded(PerpAccountAt(s, pos), pos + PERP_ACCOUNT_SIZE))
    else Failure(TruncatedInput(pos, PERP_ACCOUNT_SIZE))
  }

  /** The fields of a PerpAccount, each what its own adapter reads at its offset. */
  lemma PerpAccountLayout(s: seq<byte>, pos: nat)
    requires pos + PERP_ACCOUNT_SIZE <= |s|
    ensures var a := PerpAccountAt(s, pos);
      ReadSInt(s, pos, 8) == Success(Decoded(a.basePosition, pos + 8))
      && ReadI80F48Signed(s, pos + 8) == Success(Decoded(a.quotePosition, pos + 24))
      && ReadI80F48Signed(s, pos + 24) == Success(Decoded(a.longSettledFunding, pos + 40))
      && ReadI80F48Signed(s, pos + 40) == Success(Decoded(a.shortSettledFunding, pos + 56))
      && DecodePerpOpenOrders(s, pos + 56) == Success(Decoded(a.openOrders, pos + 848))
      && ReadI80F48Signed(s, pos + 848) == Success(Decoded(a.liquidityPoints, pos + 864))
  {
  }

  datatype MangoAccount = MangoAccount(
    metaData: Header.MetaData,
    group: Key,
    owner: Key,
    inMarginBasket: seq<nat>,
    numInMarginBasket: nat,
    deposits: seq<Fixed>,
    borrows: seq<Fixed>,
    spotOpenOrders: seq<Key>,
    perpAccounts: seq<PerpAccount>,
    msrmAmount: nat,
    beingLiquidated: nat,
    isBankrupt: nat)

  const MANGO_ACCOUNT_SIZE: nat := 28920

  function MangoAccountAt(s: seq<byte>, p: nat): MangoAccount
    requires p + MANGO_ACCOUNT_SIZE <= |s|
  {
    MangoAccount(Header.MetaDataAt(s, p), KeyAt(s, p + 8), KeyAt(s, p + 40),
      UIntsAt(s, p + 72, 31, 1), s[p + 103],
      I80F48sAt(s, p + 104, 32),
      I80F48sAt(s, p + 616, 32),
      KeysAt(s, p + 1128, 31),
      PerpAccountsAt(s, p + 2120, 31),
      UIntAt(s, p + 28904, 8), s[p + 28912], s[p + 28913])
  }

  /** A mango margin account: header, group and owner, the margin-basket bytes and
      their count, per-token I80F48 deposits and borrows, the spot open-orders keys,
      one perp account per market, the msrm amount, two status bytes and 6 reserved
      bytes. */
  function DecodeMangoAccount(s: seq<byte>, pos: nat): (r: Parsed<MangoAccount>)
    ensures r.Success? <==> pos + MANGO_ACCOUNT_SIZE <= |s|
    ensures r.Success? ==> r.value.next == pos + 28920
    ensures r.Success? ==> r.value.value == MangoAccountAt(s, pos)
    ensures r.Failure? ==> r.error == TruncatedInput(pos, MANGO_ACCOUNT_SIZE)
  {
    if pos + MANGO_ACCOUNT_SIZE <= |s| then Success(Decoded(MangoAccountAt(s, pos), pos + MANGO_ACCOUNT_SIZE))
    else Failure(TruncatedInput(pos, MANGO_ACCOUNT_SIZE))
  }

  /** The fields of a MangoAccount, each what its own adapter reads at its offset. */
  lemma MangoAccountLayout(s: seq<byte>, pos: nat)
    requires pos + MANGO_ACCOUNT_SIZE <= |s|
    ensures var a := MangoAccountAt(s, pos);
      Header.DecodeMetaData(s, pos) == Success(Decoded(a.metaData, pos + 8))
      && ReadKey(s, pos + 8) == Success(Decoded(a.group, pos + 40))
      && ReadKey(s, pos + 40) == Success(Decoded(a.owner, pos + 72))
      && a.inMarginBasket == UIntsAt(s, pos + 72, MAX_PAIRS, 1)
      && ReadUInt(s, pos + 103, 1) == Success(Decoded(a.numInMarginBasket, pos + 104))
      && a.deposits == I80F48sAt(s, pos + 104, MAX_TOKENS)
      && a.borrows == I80F48sAt(s, pos + 616, MAX_TOKENS)
      && a.spotOpenOrders == KeysAt(s, pos + 1128, MAX_PAIRS)
      && a.perpAccounts == PerpAccountsAt(s, pos + 2120, MAX_PAIRS)
      && ReadUInt(s, pos + 28904, 8) == Success(Decoded(a.msrmAmount, pos + 28912))
      && ReadUInt(s, pos + 28912, 1) == Success(Decoded(a.beingLiquidated, pos + 28913))
      && ReadUInt(s, pos + 28913, 1) == Success(Decoded(a.isBankrupt, pos + 28914))
  {
  }

  // ---------------------------------------------------------------- perp market

  datatype PerpMarket = PerpMarket(
    metaData: Header.MetaData,
    group: Key,
    bids: Key,
    asks: Key,
    eventQueue: Key,
    quoteLotSize: int,
    baseLotSize: int,
    longFunding: Fixed,
    shortFunding: Fixed,
    openInterest: int,
    lastUpdated: nat,
    seqNum: nat,
    feesAccrued: Fixed,
    maxDepthBips: Fixed,
    scaler: Fixed,
    totalLiquidityPoints: Fixed,
    pointsPerMngo: Fixed,
    mngoVault: Key)

  const PERP_MARKET_SIZE: nat := 320

  function PerpMarketAt(s: seq<byte>, p: nat): PerpMarket
    requires p + PERP_MARKET_SIZE <= |s|
  {
    PerpMarket(Header.MetaDataAt(s, p), KeyAt(s, p + 8), KeyAt(s, p + 40), KeyAt(s, p + 72), KeyAt(s, p + 104),
      SIntAt(s, p + 136, 8), SIntAt(s, p + 144, 8), I80F48At(s, p + 152), I80F48At(s, p + 168),
      SIntAt(s, p + 184, 8), UIntAt(s, p + 192, 8), UIntAt(s, p + 200, 8),
      I80F48At(s, p + 208), I80F48At(s, p + 224), I80F48At(s, p + 240), I80F48At(s, p + 256),
      I80F48At(s, p + 272), KeyAt(s, p + 288))
  }

  /** A perp market: header, the group, book-side and event-queue keys, signed lot
      sizes, I80F48 funding, signed open interest, the update time, the event sequence
      number, fees and liquidity-incentive parameters, and the mngo vault. An update
      time past the last representable date fails the record. */
  function DecodePerpMarket(s: seq<byte>, pos: nat): (r: Parsed<PerpMarket>)
    ensures r.Success? <==> pos + PERP_MARKET_SIZE <= |s| && ReadTimestamp(s, pos + 192).Success?
    ensures r.Success? ==> r.value.next == pos + 320
    ensures r.Success? ==> r.value.value == PerpMarketAt(s, pos)
    ensures pos + PERP_MARKET_SIZE > |s| ==> r == Failure(TruncatedInput(pos, PERP_MARKET_SIZE))
    ensures pos + PERP_MARKET_SIZE <= |s| && ReadTimestamp(s, pos + 192).Failure? ==>
      r == Failure(TimestampOutOfRange(pos + 192, UIntAt(s, pos + 192, 8)))
  {
    if pos + PERP_MARKET_SIZE > |s| then Failure(TruncatedInput(pos, PERP_MARKET_SIZE))
    else
      var _ :- ReadTimestamp(s, pos + 192);
      Success(Decoded(PerpMarketAt(s, pos), pos + PERP_MARKET_SIZE))
  }

  /** The key and integer fields of a PerpMarket, each what its own adapter reads at its offset. */
  lemma PerpMarketLayout(s: seq<byte>, pos: nat)
    requires pos + PERP_MARKET_SIZE <= |s|
    ensures var m := PerpMarketAt(s, pos);
      Header.DecodeMetaData(s, pos) == Success(Decoded(m.metaData, pos + 8))
      && ReadKey(s, pos + 8) == Success(Decoded(m.group, pos + 40))
      && ReadKey(s, pos + 40) == Success(Decoded(m.bids, pos + 72))
      && ReadKey(s, pos + 72) == Success(Decoded(m.asks, pos + 104))
      && ReadKey(s, pos + 104) == Success(Decoded(m.eventQueue, pos + 136))
      && ReadSInt(s, pos + 136, 8) == Success(Decoded(m.quoteLotSize, pos + 144))
      && ReadSInt(s, pos + 144, 8) == Success(Decoded(m.baseLotSize, pos + 152))
      && ReadSInt(s, pos + 184, 8) == Success(Decoded(m.openInterest, pos + 192))
      && ReadUInt(s, pos + 192, 8) == Success(Decoded(m.lastUpdated, pos + 200))
      && (ReadTimestamp(s, pos + 192).Success? ==>
            ReadTimestamp(s, pos + 192) == Success(Decoded(m.lastUpdated, pos + 200)))
      && ReadUInt(s, pos + 200, 8) == Success(Decoded(m.seqNum, pos + 208))
      && ReadKey(s, pos + 288) == Success(Decoded(m.mngoVault, pos + 320))
  {
  }

  /** The I80F48 fields of a PerpMarket, each what ReadI80F48Signed reads at its offset. */
  lemma PerpMarketFixedLayout(s: seq<byte>, pos: nat)
    requires pos + PERP_MARKET_SIZE <= |s|
    ensures var m := PerpMarketAt(s, pos);
      ReadI80F48Signed(s, pos + 152) == Success(Decoded(m.longFunding, pos + 168))
      && ReadI80F48Signed(s, pos + 168) == Success(Decoded(m.shortFunding, pos + 184))
      && ReadI80F48Signed(s, pos + 208) == Success(Decoded(m.feesAccrued, pos + 224))
      && ReadI80F48Signed(s, pos + 224) == Success(Decoded(m.maxDepthBips, pos + 240))
      && ReadI80F48Signed(s, pos + 240) == Success(Decoded(m.scaler, pos + 256))
      && ReadI80F48Signed(s, pos + 256) == Success(Decoded(m.totalLiquidityPoints, pos + 272))
      && ReadI80F48Signed(s, pos + 272) == Success(Decoded(m.pointsPerMngo, pos + 288))
  {
  }

  // ---------------------------------------------------------------- sizes

  /** Every record's width is the sum of the widths of its fields, in declaration order. */
  lemma RecordSizes()
    ensures TOKEN_ACCOUNT_SIZE == KEY_SIZE + KEY_SIZE + 8 + 93
    ensures OPEN_ORDERS_SIZE == 5 + Header.ACCOUNT_FLAGS_SIZE + 2 * KEY_SIZE + 4 * 8 + 16 + 16 + OPEN_ORDERS_SLOTS * 16 + OPEN_ORDERS_SLOTS * 8 + 8 + 7
    ensures TOKEN_INFO_SIZE == KEY_SIZE + KEY_SIZE + 1 + 7
    ensures SPOT_MARKET_INFO_SIZE == KEY_SIZE + 5 * I80F48_SIZE
    ensures PERP_MARKET_INFO_SIZE == KEY_SIZE + 7 * I80F48_SIZE + 8 + 8
    ensures GROUP_SIZE == Header.METADATA_SIZE + 8 + MAX_TOKENS * TOKEN_INFO_SIZE + MAX_PAIRS * SPOT_MARKET_INFO_SIZE + MAX_PAIRS * PERP_MARKET_INFO_SIZE + MAX_PAIRS * KEY_SIZE + 8 + 4 * KEY_SIZE + 8 + 3 * KEY_SIZE
    ensures ROOT_BANK_SIZE == Header.METADATA_SIZE + 3 * I80F48_SIZE + 8 + MAX_NODE_BANKS * KEY_SIZE + 2 * I80F48_SIZE + 8 + 64
    ensures NODE_BANK_SIZE == Header.METADATA_SIZE + 2 * I80F48_SIZE + KEY_SIZE
    ensures PERP_OPEN_ORDERS_SIZE == 8 + 8 + 4 + 4 + MAX_TOKENS * 16 + MAX_TOKENS * 8
    ensures PERP_ACCOUNT_SIZE == 8 + 3 * I80F48_SIZE + PERP_OPEN_ORDERS_SIZE + I80F48_SIZE
    ensures MANGO_ACCOUNT_SIZE == Header.METADATA_SIZE + 2 * KEY_SIZE + MAX_PAIRS + 1 + 2 * MAX_TOKENS * I80F48_SIZE + MAX_PAIRS * KEY_SIZE + MAX_PAIRS * PERP_ACCOUNT_SIZE + 8 + 1 + 1 + 6
    ensures PERP_MARKET_SIZE == Header.METADATA_SIZE + 4 * KEY_SIZE + 8 + 8 + 2 * I80F48_SIZE + 8 + 8 + 8 + 5 * I80F48_SIZE + KEY_SIZE
  {
  }
}
