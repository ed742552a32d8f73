/**
 * The format constants of the index file and the slot layout of its two kinds
 * of block. Every field is one 8-byte slot; all of them except the magic tag,
 * which is raw ASCII bytes, hold an integer of `Int64Codec`. The header and a
 * node are each laid out as consecutive slots from offset 0 of a block.
 */
module BlockFormat {
  import opened Int64Codec

  datatype Option<T> = None | Some(value: T)

  /** Size in bytes of every block of the file. */
  const BlockSize: nat := 512

  /** The 8-byte tag at offset 0 of the header block: the ASCII text "4348PRJ3". */
  const Magic: seq<Byte> := [0x34, 0x33, 0x34, 0x38, 0x50, 0x52, 0x4A, 0x33]
  /** The same tag as text; it exists only to state, in `MagicTag`, that `Magic` is ASCII. */
  const MagicText: string := "4348PRJ3"

  /** Minimum degree t of the B-tree. */
  const MinDegree: nat := 10
  const MaxKeys: nat := 2 * MinDegree - 1
  const ChildrenNum: nat := 2 * MinDegree

  lemma MagicTag()
    ensures |Magic| == Width == |MagicText|
    ensures forall i :: 0 <= i < |Magic| ==> Magic[i] == MagicText[i] as int < 128
  {
  }

  lemma DegreeConstants()
    ensures MaxKeys == 2 * MinDegree - 1 == 19
    ensures ChildrenNum == 2 * MinDegree == MaxKeys + 1 == 20
  {
  }

  // ----- header block ----------------------------------------------------------

  /** The fields of the header block, in file order. */
  datatype HeaderSlot = MagicTagSlot | RootBlockId | NextBlockId

  /** Bytes of the header block that carry fields; the rest is unused. */
  const HeaderUsed: nat := 3 * Width

  function HeaderOffset(s: HeaderSlot): (off: nat)
    ensures off % Width == 0 && off + Width <= HeaderUsed
  {
    match s
    case MagicTagSlot => 0
    case RootBlockId => Width
    case NextBlockId => 2 * Width
  }

  /** The header field whose slot starts at `off`, if any. */
  function HeaderSlotAt(off: nat): (s: Option<HeaderSlot>)
    ensures s.Some? <==> off < HeaderUsed && off % Width == 0
    ensures s.Some? ==> HeaderOffset(s.value) == off
  {
    if off == 0 then Some(MagicTagSlot)
    else if off == Width then Some(RootBlockId)
    else if off == 2 * Width then Some(NextBlockId)
    else None
  }

  /** Every header field has its own slot: reading back the slot at a field's offset gives that field. */
  lemma HeaderLayout(s: HeaderSlot)
    ensures HeaderSlotAt(HeaderOffset(s)) == Some(s)
  {
  }

  lemma HeaderFits()
    ensures HeaderUsed == 24 <= BlockSize
    ensures HeaderOffset(MagicTagSlot) + |Magic| == HeaderOffset(RootBlockId)
  {
  }

  // ----- node block ------------------------------------------------------------

  /** The fields of a node block: three header fields, then the key, value and child arrays. */
  datatype NodeSlot = BlockId | ParentBlockId | KeyCount | Key(i: nat) | Value(i: nat) | Child(i: nat)

  predicate ValidNodeSlot(s: NodeSlot) {
    match s
    case Key(i) => i < MaxKeys
    case Value(i) => i < MaxKeys
    case Child(i) => i < ChildrenNum
    case _ => true
  }

  /** Bytes of a node block that carry fields; the rest is unused. */
  const NodeUsed: nat := (3 + MaxKeys + MaxKeys + ChildrenNum) * Width

  const KeysStart: nat := 3 * Width
  const ValuesStart: nat := KeysStart + MaxKeys * Width
  const ChildrenStart: nat := ValuesStart + MaxKeys * Width

  function NodeOffset(s: NodeSlot): (off: nat)
    requires ValidNodeSlot(s)
    ensures off % Width == 0 && off + Width <= NodeUsed
  {
    match s
    case BlockId => 0
    case ParentBlockId => Width
    case KeyCount => 2 * Width
    case Key(i) => KeysStart + i * Width
    case Value(i) => ValuesStart + i * Width
    case Child(i) => ChildrenStart + i * Width
  }

  /** The node field whose slot starts at `off`, if any. */
  function NodeSlotAt(off: nat): (s: Option<NodeSlot>)
    ensures s.Some? <==> off < NodeUsed && off % Width == 0
    ensures s.Some? ==> ValidNodeSlot(s.value) && NodeOffset(s.value) == off
  {
    if off >= NodeUsed || off % Width != 0 then None
    else if off < KeysStart then Some(if off == 0 then BlockId else if off == Width then ParentBlockId else KeyCount)
    else if off < ValuesStart then Some(Key((off - KeysStart) / Width))
    else if off < ChildrenStart then Some(Value((off - ValuesStart) / Width))
    else Some(Child((off - ChildrenStart) / Width))
  }

  /** Every node field has its own slot: reading back the slot at a field's offset gives that field. */
  lemma NodeLayout(s: NodeSlot)
    requires ValidNodeSlot(s)
    ensures NodeSlotAt(NodeOffset(s)) == Some(s)
  {
  }

  /** Distinct node fields never overlap. */
  lemma NodeSlotsDisjoint(s: NodeSlot, t: NodeSlot)
    requires ValidNodeSlot(s) && ValidNodeSlot(t) && s != t
    ensures NodeOffset(s) + Width <= NodeOffset(t) || NodeOffset(t) + Width <= NodeOffset(s)
  {
    NodeLayout(s);
    NodeLayout(t);
  }

  lemma NodeFits()
    ensures KeysStart == 24 && ValuesStart == 24 + 152 && ChildrenStart == 24 + 152 + 152
    ensures NodeUsed == ChildrenStart + 160 == 488 <= BlockSize
  {
  }
}
