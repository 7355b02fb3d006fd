/** Order-book sides: a 40-byte header followed by 1024 fixed-size nodes.

Every node is 88 bytes and starts with a u32 tag that says which of five layouts
the remaining bytes follow. The tag is read first; the chosen layout then reads
the whole node again, checking its own constant tag, so a tag outside 0..4 makes
the node (and the side that holds it) fail to decode. A leaf's timestamp is turned
into a date, so a leaf whose timestamp is past the last representable date fails too.
 */
module OrderBook {
  import opened Wrappers
  import opened LittleEndian
  import opened Adapters
  import Header

  const NODE_SIZE: nat := 88
  const NODE_TAG_SIZE: nat := 4
  const MAX_BOOK_NODES: nat := 1024

  /** The five node layouts. */
  datatype BookNode =
    | Uninitialized(data: seq<byte>)
    | Inner(prefixLen: nat, innerKey: nat, children: seq<nat>)
    | Leaf(ownerSlot: nat, key: OrderKey, owner: Key, quantity: nat, clientOrderId: nat,
           bestInitial: int, timestamp: nat)
    | Free(next: nat)
    | LastFree(next: nat)
  {
    /** The constant tag the node's layout requires in its first four bytes. */
    function Tag(): nat
    {
      match this
      case Uninitialized(_) => 0
      case Inner(_, _, _) => 1
      case Leaf(_, _, _, _, _, _, _) => 2
      case Free(_) => 3
      case LastFree(_) => 4
    }
  }

  /** The u32 tag of the node at p. */
  function NodeTagAt(s: seq<byte>, p: nat): nat
    requires p + NODE_TAG_SIZE <= |s|
  {
    UIntAt(s, p, NODE_TAG_SIZE)
  }

  /** Where a leaf keeps its timestamp, from the start of the node. */
  const LEAF_TIMESTAMP_OFFSET: nat := 80

  /** The node at p can be read: its tag names a layout and, for a leaf, its timestamp
      is a representable date. */
  predicate NodeReadable(s: seq<byte>, p: nat)
    requires p + NODE_SIZE <= |s|
  {
    NodeTagAt(s, p) <= 4 && (NodeTagAt(s, p) == 2 ==> UIntAt(s, p + LEAF_TIMESTAMP_OFFSET, 8) <= MAX_TIMESTAMP)
  }

  /** The node at p, read with the layout its tag selects. */
  function NodeAt(s: seq<byte>, p: nat): BookNode
    requires p + NODE_SIZE <= |s| && NodeTagAt(s, p) <= 4
  {
    var tag := NodeTagAt(s, p);
    if tag == 0 then Uninitialized(s[p + 4..p + NODE_SIZE])
    else if tag == 1 then Inner(UIntAt(s, p + 4, 4), UIntAt(s, p + 8, 16), [UIntAt(s, p + 24, 4), UIntAt(s, p + 28, 4)])
    else if tag == 2 then
      Leaf(UIntAt(s, p + 4, 1), OrderKeyAt(s, p + 8), KeyAt(s, p + 24), UIntAt(s, p + 56, 8), UIntAt(s, p + 64, 8),
           SIntAt(s, p + 72, 8), UIntAt(s, p + 80, 8))
    else if tag == 3 then Free(UIntAt(s, p + 4, 4))
    else LastFree(UIntAt(s, p + 4, 4))
  }

  /** One node: the 88-byte window must be present, its tag must name a layout, and a
      leaf's timestamp must convert to a date. */
  function DecodeNode(s: seq<byte>, pos: nat): (r: Parsed<BookNode>)
    ensures r.Success? <==> pos + NODE_SIZE <= |s| && NodeReadable(s, pos)
    ensures r.Success? ==> r.value == Decoded(NodeAt(s, pos), pos + NODE_SIZE)
    ensures r.Success? ==> r.value.value.Tag() == NodeTagAt(s, pos)
  {
    if pos + NODE_SIZE > |s| then Failure(TruncatedInput(pos, NODE_SIZE))
    else if NodeTagAt(s, pos) > 4 then Failure(UnknownVariant(NodeTagAt(s, pos)))
    else if NodeTagAt(s, pos) == 2 && UIntAt(s, pos + LEAF_TIMESTAMP_OFFSET, 8) > MAX_TIMESTAMP then
      Failure(TimestampOutOfRange(pos + LEAF_TIMESTAMP_OFFSET, UIntAt(s, pos + LEAF_TIMESTAMP_OFFSET, 8)))
    else Success(Decoded(NodeAt(s, pos), pos + NODE_SIZE))
  }

  /** Why a node fails: a short window, a tag past 4, or a leaf timestamp that is not a date. */
  lemma DecodeNodeErrors(s: seq<byte>, pos: nat)
    ensures pos + NODE_SIZE > |s| ==> DecodeNode(s, pos) == Failure(TruncatedInput(pos, NODE_SIZE))
    ensures pos + NODE_SIZE <= |s| && NodeTagAt(s, pos) > 4 ==>
      DecodeNode(s, pos) == Failure(UnknownVariant(NodeTagAt(s, pos)))
    ensures pos + NODE_SIZE <= |s| && NodeTagAt(s, pos) == 2 && ReadTimestamp(s, pos + LEAF_TIMESTAMP_OFFSET).Failure? ==>
      DecodeNode(s, pos) == Failure(TimestampOutOfRange(pos + LEAF_TIMESTAMP_OFFSET, UIntAt(s, pos + LEAF_TIMESTAMP_OFFSET, 8)))
  {
  }

  /** A leaf is readable exactly when the timestamp adapter accepts its timestamp field. */
  lemma LeafReadableIffTimestamp(s: seq<byte>, pos: nat)
    requires pos + NODE_SIZE <= |s| && NodeTagAt(s, pos) == 2
    ensures NodeReadable(s, pos) <==> ReadTimestamp(s, pos + LEAF_TIMESTAMP_OFFSET).Success?
  {
  }

  /** The layout chosen by the tag accepts the node: its constant tag reads back as itself. */
  lemma NodeConstantTagAgrees(s: seq<byte>, pos: nat)
    requires DecodeNode(s, pos).Success?
    ensures var n := DecodeNode(s, pos).value.value;
      ReadConstUInt(s, pos, NODE_TAG_SIZE, n.Tag()) == Success(Decoded(n.Tag(), pos + NODE_TAG_SIZE))
  {
  }

  /** Each tag selects exactly one layout: 0 uninitialised, 1 inner, 2 leaf (when its
      timestamp is a date), 3 free, 4 last free. */
  lemma NodeDispatch(s: seq<byte>, pos: nat)
    requires pos + NODE_SIZE <= |s|
    ensures var tag := NodeTagAt(s, pos); var r := DecodeNode(s, pos);
      (tag == 0 <==> r.Success? && r.value.value.Uninitialized?)
      && (tag == 1 <==> r.Success? && r.value.value.Inner?)
      && (tag == 2 && ReadTimestamp(s, pos + LEAF_TIMESTAMP_OFFSET).Success? <==> r.Success? && r.value.value.Leaf?)
      && (tag == 3 <==> r.Success? && r.value.value.Free?)
      && (tag == 4 <==> r.Success? && r.value.value.LastFree?)
  {
  }

  /** The fields of an inner node, each what its own adapter reads at its offset. */
  lemma InnerLayout(s: seq<byte>, pos: nat)
    requires pos + NODE_SIZE <= |s| && NodeTagAt(s, pos) == 1
    ensures var n := NodeAt(s, pos);
      n.Inner? && |n.children| == 2
      && ReadUInt(s, pos + 4, 4) == Success(Decoded(n.prefixLen, pos + 8))
      && ReadUInt(s, pos + 8, 16) == Success(Decoded(n.innerKey, pos + 24))
      && ReadUInt(s, pos + 24, 4) == Success(Decoded(n.children[0], pos + 28))
      && ReadUInt(s, pos + 28, 4) == Success(Decoded(n.children[1], pos + 32))
      && Skip(s, pos + 32, 56).Success? && pos + 32 + 56 == pos + NODE_SIZE
  {
  }

  /** The fields of a leaf node, each what its own adapter reads at its offset. */
  lemma LeafLayout(s: seq<byte>, pos: nat)
    requires pos + NODE_SIZE <= |s| && NodeTagAt(s, pos) == 2
    ensures var n := NodeAt(s, pos);
      n.Leaf?
      && ReadUInt(s, pos + 4, 1) == Success(Decoded(n.ownerSlot, pos + 5))
      && ReadOrderKey(s, pos + 8) == Success(Decoded(n.key, pos + 24))
      && ReadKey(s, pos + 24) == Success(Decoded(n.owner, pos + 56))
      && ReadUInt(s, pos + 56, 8) == Success(Decoded(n.quantity, pos + 64))
      && ReadUInt(s, pos + 64, 8) == Success(Decoded(n.clientOrderId, pos + 72))
      && ReadSInt(s, pos + 72, 8) == Success(Decoded(n.bestInitial, pos + 80))
      && ReadUInt(s, pos + 80, 8) == Success(Decoded(n.timestamp, pos + NODE_SIZE))
      && (ReadTimestamp(s, pos + 80).Success? ==> ReadTimestamp(s, pos + 80) == Success(Decoded(n.timestamp, pos + NODE_SIZE)))
  {
  }

  /** The `next` field of a free or last-free node is the u32 after the tag. */
  lemma FreeLayout(s: seq<byte>, pos: nat)
    requires pos + NODE_SIZE <= |s| && 3 <= NodeTagAt(s, pos) <= 4
    ensures var n := NodeAt(s, pos);
      (n.Free? || n.LastFree?)
      && ReadUInt(s, pos + 4, 4) == Success(Decoded(n.next, pos + 8))
      && Skip(s, pos + 8, 80).Success? && pos + 8 + 80 == pos + NODE_SIZE
  {
  }

  /** Every node layout is exactly 88 bytes, the width of the tag plus its data. */
  lemma NodeSizes()
    ensures NODE_TAG_SIZE + 84 == NODE_SIZE
    ensures NODE_TAG_SIZE + 4 + 16 + 2 * 4 + 56 == NODE_SIZE
    ensures NODE_TAG_SIZE + 1 + 3 + 16 + KEY_SIZE + 8 + 8 + 8 + 8 == NODE_SIZE
    ensures NODE_TAG_SIZE + 4 + 80 == NODE_SIZE
  {
  }

  /** There is no encoder for book nodes. */
  function BuildNode(n: BookNode): (r: Result<seq<byte>, Error>)
    ensures r.Failure? && r.error == UnsupportedEncode
  {
    Failure(UnsupportedEncode)
  }

  // ---------------------------------------------------------------- book sides

  datatype OrderbookSide = OrderbookSide(
    metaData: Header.MetaData,
    bumpIndex: nat,
    freeListLen: nat,
    freeListHead: nat,
    rootNode: nat,
    leafCount: nat,
    nodes: seq<BookNode>)

  const ORDERBOOK_SIDE_HEADER_SIZE: nat := 40
  const ORDERBOOK_SIDE_SIZE: nat := 90152

  /** Where node k of the side at p starts. */
  function NodeOffset(p: nat, k: nat): nat
  {
    p + ORDERBOOK_SIDE_HEADER_SIZE + NODE_SIZE * k
  }

  /** Every node of the side at p decodes. */
  predicate AllNodesDecode(s: seq<byte>, p: nat)
  {
    forall k | 0 <= k < MAX_BOOK_NODES :: DecodeNode(s, NodeOffset(p, k)).Success?
  }

  /** A book side: header, bump index, free-list length and head, root node, leaf
      count, then 1024 nodes read one after another. Decoding stops at the first
      node that is missing, carries an unknown tag or is a leaf whose timestamp is not a date. */
  method DecodeOrderbookSide(s: seq<byte>, pos: nat) returns (r: Parsed<OrderbookSide>)
    ensures r.Success? <==> pos + ORDERBOOK_SIDE_HEADER_SIZE <= |s| && AllNodesDecode(s, pos)
    ensures r.Success? ==> r.value.next == pos + ORDERBOOK_SIDE_SIZE
    ensures r.Success? ==> (
      r.value.value.metaData == Header.MetaDataAt(s, pos)
      && r.value.value.bumpIndex == UIntAt(s, pos + 8, 8)
      && r.value.value.freeListLen == UIntAt(s, pos + 16, 8)
      && r.value.value.freeListHead == UIntAt(s, pos + 24, 4)
      && r.value.value.rootNode == UIntAt(s, pos + 28, 4)
      && r.value.value.leafCount == UIntAt(s, pos + 32, 8))
    ensures r.Success? ==> (
      |r.value.value.nodes| == MAX_BOOK_NODES
      && forall k | 0 <= k < MAX_BOOK_NODES ::
           DecodeNode(s, NodeOffset(pos, k)) == Success(Decoded(r.value.value.nodes[k], NodeOffset(pos, k + 1))))
    ensures r.Failure? && pos + ORDERBOOK_SIDE_HEADER_SIZE > |s| ==>
      r.error == TruncatedInput(pos, ORDERBOOK_SIDE_HEADER_SIZE)
    ensures r.Failure? && pos + ORDERBOOK_SIDE_HEADER_SIZE <= |s| ==>
      exists k | 0 <= k < MAX_BOOK_NODES ::
        (forall j | 0 <= j < k :: DecodeNode(s, NodeOffset(pos, j)).Success?)
        && DecodeNode(s, NodeOffset(pos, k)) == Failure(r.error)
  {
    if pos + ORDERBOOK_SIDE_HEADER_SIZE > |s| {
      return Failure(TruncatedInput(pos, ORDERBOOK_SIDE_HEADER_SIZE));
    }
    var nodes: seq<BookNode> := [];
    var k := 0;
    while k < MAX_BOOK_NODES
      invariant 0 <= k <= MAX_BOOK_NODES && |nodes| == k
      invariant forall j | 0 <= j < k ::
        DecodeNode(s, NodeOffset(pos, j)) == Success(Decoded(nodes[j], NodeOffset(pos, j + 1)))
    {
      var d := DecodeNode(s, NodeOffset(pos, k));
      if d.Failure? {
        assert !AllNodesDecode(s, pos) by {
          assert !DecodeNode(s, NodeOffset(pos, k)).Success?;
        }
        forall j | 0 <= j < k
          ensures DecodeNode(s, NodeOffset(pos, j)).Success?
        {
          assert DecodeNode(s, NodeOffset(pos, j)) == Success(Decoded(nodes[j], NodeOffset(pos, j + 1)));
        }
        return Failure(d.error);
      }
      nodes := nodes + [d.value.value];
      k := k + 1;
    }
    assert AllNodesDecode(s, pos) by {
      forall k | 0 <= k < MAX_BOOK_NODES
        ensures DecodeNode(s, NodeOffset(pos, k)).Success?
      {
        assert DecodeNode(s, NodeOffset(pos, k)) == Success(Decoded(nodes[k], NodeOffset(pos, k + 1)));
      }
    }
    var side := OrderbookSide(Header.MetaDataAt(s, pos), UIntAt(s, pos + 8, 8), UIntAt(s, pos + 16, 8),
      UIntAt(s, pos + 24, 4), UIntAt(s, pos + 28, 4), UIntAt(s, pos + 32, 8), nodes);
    r := Success(Decoded(side, NodeOffset(pos, MAX_BOOK_NODES)));
  }

  /** A side decodes exactly when its whole window is present and every node is
      readable: its tag is 0..4 and, for a leaf, its timestamp is a date. */
  lemma AllNodesDecodeIff(s: seq<byte>, pos: nat)
    ensures AllNodesDecode(s, pos) <==>
      pos + ORDERBOOK_SIDE_SIZE <= |s|
      && forall k | 0 <= k < MAX_BOOK_NODES :: NodeReadable(s, NodeOffset(pos, k))
  {
    if AllNodesDecode(s, pos) {
      assert DecodeNode(s, NodeOffset(pos, MAX_BOOK_NODES - 1)).Success?;
    }
  }

  /** The side's width is its header plus 1024 nodes. */
  lemma OrderbookSideSize()
    ensures ORDERBOOK_SIDE_HEADER_SIZE == Header.METADATA_SIZE + 8 + 8 + 4 + 4 + 8
    ensures ORDERBOOK_SIDE_SIZE == ORDERBOOK_SIDE_HEADER_SIZE + MAX_BOOK_NODES * NODE_SIZE
    ensures NodeOffset(0, MAX_BOOK_NODES) == ORDERBOOK_SIDE_SIZE
  {
  }
}
