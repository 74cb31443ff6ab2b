/** Device trees as trees, their flattened form, and that the walk of the flattened form lists the tree. */
module FdtTree {
  import opened Bytes
  import opened Binary
  import opened Slices
  import opened Utf8
  import opened Fdt

  /** A node with its properties and children in order; NOP tokens may stand anywhere among them. */
  datatype Node = Node(name: Bytes, items: seq<Item>)
  datatype Item = Property(name: Bytes, data: Bytes) | Child(node: Node) | Nop

  // ---- What a tree holds --------------------------------------------------

  /** The path of a node below another: a nameless node adds nothing. */
  function PathBelow(path: Bytes, name: Bytes): Bytes {
    if name == [] then path else path + [SEPARATOR] + name
  }

  /** The properties of a node in document order, below the path of its parent. */
  function ListNode(node: Node, path: Bytes): seq<Listing>
    decreases node, 0
  {
    ListItems(node.items, PathBelow(path, node.name))
  }

  function ListItems(items: seq<Item>, path: Bytes): seq<Listing>
    decreases items, |items|
  {
    if items == [] then [] else ListItem(items[0], path) + ListItems(items[1..], path)
  }

  /** A property of the root, or of a nameless node below it, has the path "/". */
  function ListItem(item: Item, path: Bytes): seq<Listing>
    decreases item, 0
  {
    match item
    case Property(name, data) => [Listing(if path == [] then [SEPARATOR] else path, name, data)]
    case Child(node) => ListNode(node, path)
    case Nop => []
  }

  // ---- The structure block ------------------------------------------------

  /** Where the strings block has a name. */
  type Offsets = Bytes -> nat

  function Word32(n: nat): (w: Bytes)
    ensures |w| == 4
  {
    if n < 0x1_0000_0000 then Pack32be(n) else [0, 0, 0, 0]
  }

  /** Zeros up to the next multiple of four. */
  function Padding(n: nat): (z: Bytes)
    ensures (n + |z|) % 4 == 0 && |z| < 4
  {
    if n % 4 == 0 then [] else if n % 4 == 1 then [0, 0, 0] else if n % 4 == 2 then [0, 0] else [0]
  }

  /** Section 5.4 of the Devicetree Specification v0.4. */
  function FlatNode(node: Node, off: Offsets): Bytes
    decreases node, 0
  {
    Word32(1) + (node.name + [0] + Padding(|node.name| + 1)) + (FlatItems(node.items, off) + Word32(2))
  }

  function FlatItems(items: seq<Item>, off: Offsets): Bytes
    decreases items, |items|
  {
    if items == [] then [] else FlatItem(items[0], off) + FlatItems(items[1..], off)
  }

  function FlatItem(item: Item, off: Offsets): Bytes
    decreases item, 0
  {
    match item
    case Property(name, data) =>
      (Word32(3) + Word32(|data|) + Word32(off(name))) + (data + Padding(|data|))
    case Child(node) => FlatNode(node, off)
    case Nop => Word32(4)
  }

  /** Names are terminated UTF-8 and lengths fit their fields; the strings block has every property's name. */
  predicate GoodNode(node: Node, strings: Bytes, off: Offsets)
    decreases node, 0
  {
    0 !in node.name && ValidUtf8(node.name) && GoodItems(node.items, strings, off)
  }

  predicate GoodItems(items: seq<Item>, strings: Bytes, off: Offsets)
    decreases items, |items|
  {
    items == [] || (GoodItem(items[0], strings, off) && GoodItems(items[1..], strings, off))
  }

  predicate GoodItem(item: Item, strings: Bytes, off: Offsets)
    decreases item, 0
  {
    match item
    case Property(name, data) =>
      && 0 !in name && ValidUtf8(name) && |data| < 0x1_0000_0000 && off(name) < 0x1_0000_0000
      && Has(strings, off(name), name + [0])
    case Child(node) => GoodNode(node, strings, off)
    case Nop => true
  }

  // ---- Bytes in place -----------------------------------------------------

  predicate Has(b: Bytes, p: nat, w: Bytes) { p + |w| <= |b| && b[p..p + |w|] == w }

  lemma HasSplit(b: Bytes, p: nat, u: Bytes, v: Bytes)
    requires Has(b, p, u + v)
    ensures Has(b, p, u) && Has(b, p + |u|, v)
  {
    var w := b[p..p + |u + v|];
    SliceOfSlice(b, p, p + |u + v|, 0, |u|);
    SliceOfSlice(b, p, p + |u + v|, |u|, |u + v|);
    assert w[0..|u|] == u && w[|u|..|u + v|] == v;
  }

  lemma HasWord(b: Bytes, p: nat, n: nat)
    requires n < 0x1_0000_0000 && Has(b, p, Word32(n))
    ensures p + 4 <= |b| && U32be(b, p) == n
  {
    hide U32be;
    PackReads(b, p, n);
  }

  /** A terminated string without another terminator ends at its own. */
  lemma HasString(b: Bytes, p: nat, s: Bytes)
    requires 0 !in s && Has(b, p, s + [0])
    ensures IndexOf(b, 0, p) == Some(p + |s|) && b[p..p + |s|] == s
  {
    HasSplit(b, p, s, [0]);
    assert b[p + |s|..p + |s| + 1][0] == 0;
    forall k | p <= k < p + |s| ensures b[k] != 0 {
      assert b[k] == b[p..p + |s|][k - p] == s[k - p];
      assert s[k - p] in s;
    }
    hide Has;
    var r := IndexOf(b, 0, p);
  }

  lemma PaddingAligns(p: nat, n: nat)
    requires p % 4 == 0
    ensures Align4(p + n) == p + n + |Padding(n)|
  {
  }

  // ---- Paths --------------------------------------------------------------

  /** The path that a stack of node names, outermost first, has come to. */
  function StackPath(stack: seq<Bytes>): Bytes {
    if stack == [] then [] else PathBelow(StackPath(stack[..|stack| - 1]), stack[|stack| - 1])
  }

  lemma {:induction false} PathIsJoined(stack: seq<Bytes>)
    ensures StackPath(stack) == [] <==> forall i :: 0 <= i < |stack| ==> stack[i] == []
    ensures PathOf(stack) == if StackPath(stack) == [] then [SEPARATOR] else StackPath(stack)
  {
    if stack != [] {
      var n := |stack| - 1;
      PathIsJoined(stack[..n]);
      assert forall i :: 0 <= i < n ==> stack[..n][i] == stack[i];
    }
  }

  lemma PushedPath(stack: seq<Bytes>, name: Bytes)
    ensures StackPath(stack + [name]) == PathBelow(StackPath(stack), name)
  {
    assert (stack + [name])[..|stack|] == stack;
  }

  // ---- Walking a flattened tree -------------------------------------------

  /** r is the walk with these properties in front of what rest lists. */
  predicate Lists(r: Result<seq<Prop>>, entries: seq<Listing>, rest: Result<seq<Prop>>) {
    rest.Ok? ==> r.Ok? && Content(r.value) == entries + Content(rest.value)
  }

  lemma ListsTwice(a: Result<seq<Prop>>, x: seq<Listing>, b: Result<seq<Prop>>, y: seq<Listing>, c: Result<seq<Prop>>)
    requires Lists(a, x, b) && Lists(b, y, c)
    ensures Lists(a, x + y, c)
  {
    hide Content;
    if c.Ok? { Associates(x, y, Content(c.value)); }
  }

  /** One token that lists nothing, or one property. */
  lemma StepLists(blob: Bytes, strings: Bytes, p: nat, end: nat, stack: seq<Bytes>)
    requires p < end && TokenStep(blob, strings, p, stack).Next?
    ensures var s := TokenStep(blob, strings, p, stack);
            Lists(WalkFrom(blob, strings, p, end, stack), Content(Listed(s.prop)),
                  WalkFrom(blob, strings, s.p, end, s.stack))
  {
    hide TokenStep, Content;
    var s := TokenStep(blob, strings, p, stack);
    var rest := WalkFrom(blob, strings, s.p, end, s.stack);
    if rest.Ok? { ContentOfSum(Listed(s.prop), rest.value); }
  }

  lemma BeginStep(blob: Bytes, strings: Bytes, p: nat, stack: seq<Bytes>, name: Bytes)
    requires p % 4 == 0 && 0 !in name && ValidUtf8(name)
    requires Has(blob, p, Word32(1)) && Has(blob, p + 4, name + [0])
    ensures TokenStep(blob, strings, p, stack) == Next(p + 4 + |name| + 1 + |Padding(|name| + 1)|, stack + [name], None)
  {
    hide ValidUtf8, U32be, Align4, Padding, Has;
    HasWord(blob, p, 1);
    HasString(blob, p + 4, name);
    PaddingAligns(p + 4, |name| + 1);
  }

  lemma PropertyStepAs(blob: Bytes, strings: Bytes, p: nat, stack: seq<Bytes>, name: Bytes, data: Bytes, off: nat)
    requires p % 4 == 0 && 0 !in name && ValidUtf8(name) && |data| < 0x1_0000_0000 && off < 0x1_0000_0000
    requires Has(strings, off, name + [0])
    requires Has(blob, p, Word32(3) + Word32(|data|) + Word32(off)) && Has(blob, p + 12, data)
    ensures TokenStep(blob, strings, p, stack) ==
            Next(p + 12 + |data| + |Padding(|data|)|, stack, Some(Prop(PathOf(stack), name, data, p)))
  {
    hide ValidUtf8, U32be, Align4, Padding, Word32, PathOf;
    HasSplit(blob, p, Word32(3) + Word32(|data|), Word32(off));
    HasSplit(blob, p, Word32(3), Word32(|data|));
    HasWord(blob, p, 3);
    HasWord(blob, p + 4, |data|);
    HasWord(blob, p + 8, off);
    HasString(strings, off, name);
    PaddingAligns(p + 12, |data|);
  }

  lemma {:induction false} NodeAligned(node: Node, off: Offsets)
    ensures |FlatNode(node, off)| % 4 == 0
    decreases node, 0
  {
    ItemsAligned(node.items, off);
    var head, items := |node.name| + 1 + |Padding(|node.name| + 1)|, |FlatItems(node.items, off)|;
    assert |FlatNode(node, off)| == 4 + head + (items + 4);
    hide FlatNode, FlatItems, Padding;
    SumAligned(4, head);
    SumAligned(items, 4);
    SumAligned(4 + head, items + 4);
  }

  lemma SumAligned(a: nat, b: nat)
    requires a % 4 == 0 && b % 4 == 0
    ensures (a + b) % 4 == 0
  {
  }

  lemma {:induction false} ItemsAligned(items: seq<Item>, off: Offsets)
    ensures |FlatItems(items, off)| % 4 == 0
    decreases items, |items|
  {
    if items != [] {
      ItemAligned(items[0], off);
      ItemsAligned(items[1..], off);
      var first, rest := |FlatItem(items[0], off)|, |FlatItems(items[1..], off)|;
      assert |FlatItems(items, off)| == first + rest;
      hide FlatItem, FlatItems;
      SumAligned(first, rest);
    }
  }

  lemma {:induction false} ItemAligned(item: Item, off: Offsets)
    ensures |FlatItem(item, off)| % 4 == 0
    decreases item, 0
  {
    match item
    case Child(node) => NodeAligned(node, off);
    case Nop =>
    case Property(name, data) =>
      assert |FlatItem(item, off)| == 12 + (|data| + |Padding(|data|)|);
      hide FlatItem, Padding;
      SumAligned(12, |data| + |Padding(|data|)|);
  }

  /** A flattened node at p, inside the structure block, lists the node and leads on behind it. */
  lemma {:induction false} WalkNode(blob: Bytes, strings: Bytes, p: nat, end: nat, stack: seq<Bytes>, node: Node,
                                    off: Offsets)
    requires p % 4 == 0 && GoodNode(node, strings, off) && Has(blob, p, FlatNode(node, off))
    requires p + |FlatNode(node, off)| <= end
    ensures Lists(WalkFrom(blob, strings, p, end, stack), ListNode(node, StackPath(stack)),
                  WalkFrom(blob, strings, p + |FlatNode(node, off)|, end, stack))
    decreases node, 0
  {
    hide TokenStep, WalkFrom, Lists, GoodItems, FlatItems, ListItems, Padding, Word32, Has, ValidUtf8, StackPath;
    var name, items := node.name, FlatItems(node.items, off);
    var head := name + [0] + Padding(|name| + 1);
    var q := p + 4 + |head|;
    HasSplit(blob, p, Word32(1) + head, items + Word32(2));
    HasSplit(blob, p, Word32(1), head);
    HasSplit(blob, p + 4, name + [0], Padding(|name| + 1));
    HasSplit(blob, q, items, Word32(2));
    BeginStep(blob, strings, p, stack, name);
    StepLists(blob, strings, p, end, stack);
    PaddingAligns(p + 4, |name| + 1);
    PushedPath(stack, name);
    WalkItems(blob, strings, q, end, stack + [name], node.items, off);
    EndNode(blob, strings, q + |items|, end, stack, name);
    NothingListed();
    ItemsAligned(node.items, off);
    ListsTwice(WalkFrom(blob, strings, p, end, stack), [], WalkFrom(blob, strings, q, end, stack + [name]),
               ListItems(node.items, StackPath(stack + [name])),
               WalkFrom(blob, strings, q + |items|, end, stack + [name]));
    ListsTwice(WalkFrom(blob, strings, p, end, stack), [] + ListItems(node.items, StackPath(stack + [name])),
               WalkFrom(blob, strings, q + |items|, end, stack + [name]), [],
               WalkFrom(blob, strings, q + |items| + 4, end, stack));
    assert [] + ListItems(node.items, StackPath(stack + [name])) + [] == ListNode(node, StackPath(stack));
  }

  lemma NothingListed()
    ensures Content(Listed(None)) == []
  {
  }

  lemma EndNode(blob: Bytes, strings: Bytes, p: nat, end: nat, stack: seq<Bytes>, name: Bytes)
    requires p < end && Has(blob, p, Word32(2))
    ensures Lists(WalkFrom(blob, strings, p, end, stack + [name]), [], WalkFrom(blob, strings, p + 4, end, stack))
  {
    HasWord(blob, p, 2);
    assert TokenStep(blob, strings, p, stack + [name]) == Next(p + 4, stack, None) by {
      assert (stack + [name])[..|stack|] == stack;
    }
    StepLists(blob, strings, p, end, stack + [name]);
    NothingListed();
  }

  lemma {:induction false} WalkItems(blob: Bytes, strings: Bytes, p: nat, end: nat, stack: seq<Bytes>,
                                     items: seq<Item>, off: Offsets)
    requires p % 4 == 0 && GoodItems(items, strings, off) && Has(blob, p, FlatItems(items, off))
    requires p + |FlatItems(items, off)| <= end
    ensures Lists(WalkFrom(blob, strings, p, end, stack), ListItems(items, StackPath(stack)),
                  WalkFrom(blob, strings, p + |FlatItems(items, off)|, end, stack))
    decreases items, |items|
  {
    hide TokenStep, WalkFrom, Has, StackPath, FlatItem, ListItem, GoodItem, Content;
    if items == [] {
      assert Lists(WalkFrom(blob, strings, p, end, stack), [], WalkFrom(blob, strings, p, end, stack)) by {
        ListsNothing(WalkFrom(blob, strings, p, end, stack));
      }
    } else {
      var first := FlatItem(items[0], off);
      HasSplit(blob, p, first, FlatItems(items[1..], off));
      ItemAligned(items[0], off);
      WalkItem(blob, strings, p, end, stack, items[0], off);
      WalkItems(blob, strings, p + |first|, end, stack, items[1..], off);
      hide Lists;
      ListsTwice(WalkFrom(blob, strings, p, end, stack), ListItem(items[0], StackPath(stack)),
                 WalkFrom(blob, strings, p + |first|, end, stack), ListItems(items[1..], StackPath(stack)),
                 WalkFrom(blob, strings, p + |FlatItems(items, off)|, end, stack));
    }
  }

  lemma ListsNothing(r: Result<seq<Prop>>)
    ensures Lists(r, [], r)
  {
    hide Content;
    if r.Ok? { assert [] + Content(r.value) == Content(r.value); }
  }

  lemma {:induction false} WalkItem(blob: Bytes, strings: Bytes, p: nat, end: nat, stack: seq<Bytes>, item: Item,
                                    off: Offsets)
    requires p % 4 == 0 && GoodItem(item, strings, off) && Has(blob, p, FlatItem(item, off))
    requires p + |FlatItem(item, off)| <= end
    ensures Lists(WalkFrom(blob, strings, p, end, stack), ListItem(item, StackPath(stack)),
                  WalkFrom(blob, strings, p + |FlatItem(item, off)|, end, stack))
    decreases item, 0
  {
    hide TokenStep, WalkFrom, Lists, Has, StackPath, Content, ValidUtf8, PathOf, Padding, Word32;
    match item
    case Child(node) => WalkNode(blob, strings, p, end, stack, node, off);
    case Nop => NopLists(blob, strings, p, end, stack);
    case Property(name, data) =>
      var head := Word32(3) + Word32(|data|) + Word32(off(name));
      HasSplit(blob, p, head, data + Padding(|data|));
      HasSplit(blob, p + 12, data, Padding(|data|));
      PropertyStepAs(blob, strings, p, stack, name, data, off(name));
      StepLists(blob, strings, p, end, stack);
      PathIsJoined(stack);
      OneListed(Prop(PathOf(stack), name, data, p));
  }

  lemma OneListed(prop: Prop)
    ensures Content(Listed(Some(prop))) == [Listing(prop.path, prop.name, prop.data)]
  {
  }

  lemma NopLists(blob: Bytes, strings: Bytes, p: nat, end: nat, stack: seq<Bytes>)
    requires p < end && Has(blob, p, Word32(4))
    ensures Lists(WalkFrom(blob, strings, p, end, stack), [], WalkFrom(blob, strings, p + 4, end, stack))
  {
    HasWord(blob, p, 4);
    assert TokenStep(blob, strings, p, stack) == Next(p + 4, stack, None);
    StepLists(blob, strings, p, end, stack);
    NothingListed();
  }

  /** Whatever blob has a flattened tree and its end token as its structure block, its walk lists that tree. */
  lemma WalkListsTree(blob: Bytes, root: Node, off: Offsets)
    requires HasHeader(blob) && Field(blob, OFF_STRUCT) % 4 == 0 && GoodNode(root, Strings(blob), off)
    requires Has(blob, Field(blob, OFF_STRUCT), FlatNode(root, off) + Word32(9))
    requires |FlatNode(root, off)| + 4 <= Field(blob, SIZE_STRUCT)
    ensures Walk(blob).Ok? && Content(Walk(blob).value) == ListNode(root, [])
  {
    hide FlatNode, ListNode, GoodNode, Content, U32be, WalkFrom, Has, Word32;
    var start, strings := Field(blob, OFF_STRUCT), Strings(blob);
    var end, q := start + Field(blob, SIZE_STRUCT), start + |FlatNode(root, off)|;
    HasSplit(blob, start, FlatNode(root, off), Word32(9));
    WalkNode(blob, strings, start, end, [], root, off);
    HasWord(blob, q, 9);
    EndsHere(blob, strings, q, end);
    hide Strings;
    assert StackPath([]) == [];
    assert ListNode(root, []) + [] == ListNode(root, []);
  }

  lemma EndsHere(blob: Bytes, strings: Bytes, p: nat, end: nat)
    requires p < end && p + 4 <= |blob| && U32be(blob, p) == 9
    ensures WalkFrom(blob, strings, p, end, []) == Ok([]) && Content([]) == []
  {
  }

  // ---- A whole blob -------------------------------------------------------

  /** The names of all properties, in document order. */
  function NamesIn(node: Node): seq<Bytes>
    decreases node, 0
  {
    NamesOf(node.items)
  }

  function NamesOf(items: seq<Item>): seq<Bytes>
    decreases items, |items|
  {
    if items == [] then [] else NamesAt(items[0]) + NamesOf(items[1..])
  }

  function NamesAt(item: Item): seq<Bytes>
    decreases item, 0
  {
    match item
    case Property(name, _) => [name]
    case Child(node) => NamesIn(node)
    case Nop => []
  }

  /** The strings block of these names, and where it has each of them first. */
  function StringsOf(names: seq<Bytes>): Bytes {
    if names == [] then [] else (names[0] + [0]) + StringsOf(names[1..])
  }

  function OffsetIn(names: seq<Bytes>, name: Bytes): nat {
    if names == [] || names[0] == name then 0 else |names[0]| + 1 + OffsetIn(names[1..], name)
  }

  lemma {:induction false} HasName(names: seq<Bytes>, name: Bytes)
    requires name in names
    ensures Has(StringsOf(names), OffsetIn(names, name), name + [0])
  {
    var rest := StringsOf(names[1..]);
    if names[0] == name {
      assert ((name + [0]) + rest)[0..|name| + 1] == name + [0];
    } else {
      HasName(names[1..], name);
      HasBehind(names[0] + [0], rest, OffsetIn(names[1..], name), name + [0]);
    }
  }

  lemma HasBehind(front: Bytes, b: Bytes, p: nat, w: Bytes)
    requires Has(b, p, w)
    ensures Has(front + b, |front| + p, w)
  {
    var u := (front + b)[|front| + p..|front| + p + |w|];
    forall k | 0 <= k < |w| ensures u[k] == w[k] {
      assert u[k] == b[p + k] == b[p..p + |w|][k];
    }
  }

  /** Names without a terminator and in UTF-8, data that its length field can tell. */
  predicate SoundNode(node: Node)
    decreases node, 0
  {
    0 !in node.name && ValidUtf8(node.name) && SoundItems(node.items)
  }

  predicate SoundItems(items: seq<Item>)
    decreases items, |items|
  {
    items == [] || (SoundItem(items[0]) && SoundItems(items[1..]))
  }

  predicate SoundItem(item: Item)
    decreases item, 0
  {
    match item
    case Property(name, data) => 0 !in name && ValidUtf8(name) && |data| < 0x1_0000_0000
    case Child(node) => SoundNode(node)
    case Nop => true
  }

  lemma {:induction false} NodeIsGood(node: Node, names: seq<Bytes>)
    requires SoundNode(node) && |StringsOf(names)| < 0x1_0000_0000 && forall n :: n in NamesIn(node) ==> n in names
    ensures GoodNode(node, StringsOf(names), n => OffsetIn(names, n))
    decreases node, 0
  {
    hide ValidUtf8, StringsOf;
    ItemsAreGood(node.items, names);
  }

  lemma {:induction false} ItemsAreGood(items: seq<Item>, names: seq<Bytes>)
    requires SoundItems(items) && |StringsOf(names)| < 0x1_0000_0000 && forall n :: n in NamesOf(items) ==> n in names
    ensures GoodItems(items, StringsOf(names), n => OffsetIn(names, n))
    decreases items, |items|
  {
    hide ValidUtf8, StringsOf, OffsetIn;
    if items != [] {
      ItemsAreGood(items[1..], names);
      ItemIsGood(items[0], names);
    }
  }

  lemma {:induction false} ItemIsGood(item: Item, names: seq<Bytes>)
    requires SoundItem(item) && |StringsOf(names)| < 0x1_0000_0000 && forall n :: n in NamesAt(item) ==> n in names
    ensures GoodItem(item, StringsOf(names), n => OffsetIn(names, n))
    decreases item, 0
  {
    hide ValidUtf8, StringsOf, OffsetIn;
    match item
    case Property(name, _) =>
      assert name in NamesAt(item);
      HasName(names, name);
    case Child(node) => NodeIsGood(node, names);
    case Nop =>
  }

  function Structure(root: Node): Bytes {
    FlatNode(root, n => OffsetIn(NamesIn(root), n)) + Word32(9)
  }

  /** Section 5.2 of the Devicetree Specification v0.4: ten words, of which the walk uses the sizes and offsets. */
  function Header(total: nat, structure: nat, strings: nat, others: seq<nat>): (h: Bytes)
    requires |others| == 4
    ensures |h| == 40
  {
    (MAGIC + Word32(total)) + (Word32(40) + Word32(40 + structure)) + (Word32(others[0]) + Word32(others[1]))
    + (Word32(others[2]) + Word32(others[3])) + (Word32(strings) + Word32(structure))
  }

  /** The header, the structure block and the strings block of a tree, one behind the other. */
  function Flatten(root: Node, others: seq<nat>): Bytes
    requires |others| == 4
  {
    var structure, strings := Structure(root), StringsOf(NamesIn(root));
    Header(40 + |structure| + |strings|, |structure|, |strings|, others) + (structure + strings)
  }

  lemma HeaderReads(blob: Bytes, total: nat, structure: nat, strings: nat, others: seq<nat>)
    requires |others| == 4 && total < 0x1_0000_0000 && 40 + structure <= total && strings <= total
    requires Has(blob, 0, Header(total, structure, strings, others))
    ensures |blob| >= 40 && blob[..4] == MAGIC && Field(blob, TOTAL_SIZE) == total && Field(blob, OFF_STRUCT) == 40
    ensures Field(blob, OFF_STRINGS) == 40 + structure
    ensures Field(blob, SIZE_STRINGS) == strings && Field(blob, SIZE_STRUCT) == structure
  {
    hide U32be, Word32, Has;
    var a, b, c := MAGIC + Word32(total), Word32(40) + Word32(40 + structure), Word32(others[0]) + Word32(others[1]);
    var d, e := Word32(others[2]) + Word32(others[3]), Word32(strings) + Word32(structure);
    HasSplit(blob, 0, a + b + c + d, e);
    HasSplit(blob, 0, a + b + c, d);
    HasSplit(blob, 0, a + b, c);
    HasSplit(blob, 0, a, b);
    HasSplit(blob, 0, MAGIC, Word32(total));
    HasSplit(blob, 8, Word32(40), Word32(40 + structure));
    HasSplit(blob, 32, Word32(strings), Word32(structure));
    HasWord(blob, 4, total);
    HasWord(blob, 8, 40);
    HasWord(blob, 12, 40 + structure);
    HasWord(blob, 32, strings);
    HasWord(blob, 36, structure);
    HasFront(blob, MAGIC);
  }

  lemma HasFront(b: Bytes, w: Bytes)
    requires Has(b, 0, w)
    ensures |w| <= |b| && b[..|w|] == w
  {
  }

  lemma HasWhole(u: Bytes, v: Bytes)
    ensures Has(u + v, 0, u) && Has(u + v, |u|, v)
  {
    assert (u + v)[0..|u + v|] == u + v;
    HasSplit(u + v, 0, u, v);
  }

  /** The walk of a flattened tree lists it: every property once, in document order, with its path, name and data. */
  lemma WalkOfFlattened(root: Node, others: seq<nat>)
    requires |others| == 4 && SoundNode(root) && |Flatten(root, others)| < 0x1_0000_0000
    ensures var r := Walk(Flatten(root, others)); r.Ok? && Content(r.value) == ListNode(root, [])
  {
    hide Structure, StringsOf, NamesIn, Header, Has, SoundNode, Walk, Content, ListNode, GoodNode;
    var blob, structure, strings := Flatten(root, others), Structure(root), StringsOf(NamesIn(root));
    var header := Header(|blob|, |structure|, |strings|, others);
    HasWhole(header, structure + strings);
    HasSplit(blob, 40, structure, strings);
    HeaderReads(blob, |blob|, |structure|, |strings|, others);
    NodeIsGood(root, NamesIn(root));
    StringsRead(blob, strings);
    TreeRead(blob, root);
  }

  lemma StringsRead(blob: Bytes, strings: Bytes)
    requires HasHeader(blob) && Field(blob, SIZE_STRINGS) == |strings| && Has(blob, Field(blob, OFF_STRINGS), strings)
    ensures Strings(blob) == strings
  {
  }

  lemma TreeRead(blob: Bytes, root: Node)
    requires HasHeader(blob) && Field(blob, OFF_STRUCT) == 40 && Field(blob, SIZE_STRUCT) == |Structure(root)|
    requires Has(blob, 40, Structure(root)) && Strings(blob) == StringsOf(NamesIn(root))
    requires GoodNode(root, StringsOf(NamesIn(root)), n => OffsetIn(NamesIn(root), n))
    ensures Walk(blob).Ok? && Content(Walk(blob).value) == ListNode(root, [])
  {
    hide StringsOf, NamesIn, Walk, Content, ListNode, GoodNode, FlatNode, Has, Word32;
    WalkListsTree(blob, root, n => OffsetIn(NamesIn(root), n));
  }
}
