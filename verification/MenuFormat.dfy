/**
  The byte format of menus (libraries/NeilOS/GUI/NSMenu.cpp and NSMenuItem.cpp): a menu is
  a list of items and a trailer, an item may hold a submenu.  Floats, flags, colours and
  rectangles are carried as the bytes they are copied as.
*/
module MenuFormat {
  import opened Wrappers

  type Byte = b: nat | b < 256
  type Bytes = seq<Byte>
  type Four = b: Bytes | |b| == 4 witness [0, 0, 0, 0]
  type Eight = b: Bytes | |b| == 8 witness [0, 0, 0, 0, 0, 0, 0, 0]
  type Sixteen = b: Bytes | |b| == 16 witness seq(16, _ => 0)

  const TWO32: nat := 0x1_0000_0000

  // A plain item, in the default font and without an image.
  datatype Item = Item(fontSize: Four, title: Bytes, key: Bytes, flags: Four, submenu: Option<Menu>,
                       borderHeight: Four, isSeparator: bool, highlighted: bool, enabled: bool,
                       hasAction: bool, chromatic: bool, size: Eight, fontHeight: Four)

  datatype Menu = Menu(items: seq<Item>, isContext: bool, frame: Sixteen, borderRadius: Four,
                       orientation: Four, background: Four, highlight: Four, border: Four,
                       text: Four, textHighlight: Four)

  // ----- fields -----

  // A 32-bit number as memcpy lays it out: lowest byte first.
  function U32(n: nat): (r: Four)
    requires n < TWO32
  {
    [n % 0x100, n / 0x100 % 0x100, n / 0x1_0000 % 0x100, n / 0x100_0000]
  }

  function FromU32(b: Four): (n: nat)
    ensures n < TWO32
  {
    var b0: nat, b1: nat, b2: nat, b3: nat := b[0], b[1], b[2], b[3];
    b0 + 0x100 * b1 + 0x1_0000 * b2 + 0x100_0000 * b3
  }

  lemma U32RoundTrip(n: nat)
    requires n < TWO32
    ensures FromU32(U32(n)) == n
  {
    assert n / 0x1_0000 == n / 0x100 / 0x100 && n / 0x100_0000 == n / 0x100 / 0x100 / 0x100;
  }

  function Flag(b: bool): Bytes { [if b then 1 else 0] }

  // Fields written one after the other.
  function Flatten(fields: seq<Bytes>): Bytes {
    if fields == [] then [] else fields[0] + Flatten(fields[1..])
  }

  lemma {:induction false} FlattenConcat(a: seq<Bytes>, b: seq<Bytes>)
    ensures Flatten(a + b) == Flatten(a) + Flatten(b)
  {
    if a == [] {
      assert a + b == b;
    } else {
      assert (a + b)[1..] == a[1..] + b;
      FlattenConcat(a[1..], b);
    }
  }

  // Lengths are stored in 32 bits.
  function Length(n: nat): Four { U32(n % TWO32) }

  // ----- the format, group by group -----

  // The type (MENU_ITEM_TYPE) and the font; the default font has no name.
  function FontFields(item: Item): seq<Bytes> {
    [Length(0), item.fontSize, Length(0), []]
  }

  function StringFields(item: Item): seq<Bytes> {
    [Length(|item.title|), item.title, Length(|item.key|), item.key]
  }

  // The flags, no image, and whether a submenu follows.
  function ImageFields(item: Item): seq<Bytes> {
    [item.flags, Length(0), Length(0), [], Flag(item.submenu.Some?)]
  }

  function LayoutFields(item: Item): seq<Bytes> {
    [item.borderHeight, Flag(item.isSeparator), Flag(item.highlighted), Flag(item.enabled),
     Flag(item.hasAction), Flag(item.chromatic)]
  }

  function SizeFields(item: Item): seq<Bytes> {
    [item.size, item.fontHeight]
  }

  function TrailerFields(menu: Menu): seq<Bytes> {
    [Flag(menu.isContext), menu.frame, menu.borderRadius, menu.orientation]
  }

  function ColorFields(menu: Menu): seq<Bytes> {
    [menu.background, menu.highlight, menu.border, menu.text, menu.textHighlight]
  }

  function ItemBytes(item: Item): Bytes
    decreases item, 0
  {
    Flatten(FontFields(item)) + (Flatten(StringFields(item)) + (Flatten(ImageFields(item))
      + ((if item.submenu.Some? then MenuBytes(item.submenu.value) else [])
      + (Flatten(LayoutFields(item)) + Flatten(SizeFields(item))))))
  }

  function MenuBytes(menu: Menu): Bytes
    decreases menu, 1
  {
    Length(|menu.items|) + (ItemsBytes(menu, 0) + (Flatten(TrailerFields(menu)) + Flatten(ColorFields(menu))))
  }

  // The items of a menu from item z on.
  function ItemsBytes(menu: Menu, z: nat): Bytes
    requires z <= |menu.items|
    decreases menu, 0, |menu.items| - z
  {
    if z == |menu.items| then [] else ItemBytes(menu.items[z]) + ItemsBytes(menu, z + 1)
  }

  // ----- what comes back -----

  // Strings pass through a char buffer: they end at the first NUL.
  function UpToNul(b: Bytes): Bytes {
    if b == [] || b[0] == 0 then [] else [b[0]] + UpToNul(b[1..])
  }

  // The item on the other side: actions do not travel, and without one only an item with a
  // submenu stays enabled.
  function Received(item: Item): Item
    decreases item, 0
  {
    item.(title := UpToNul(item.title), key := UpToNul(item.key),
          submenu := if item.submenu.Some? then Some(ReceivedMenu(item.submenu.value)) else None,
          enabled := item.enabled && (item.hasAction || item.submenu.Some?),
          hasAction := false)
  }

  function ReceivedMenu(menu: Menu): Menu
    decreases menu, 1
  {
    menu.(items := ReceivedItems(menu, |menu.items|))
  }

  function ReceivedItems(menu: Menu, n: nat): (r: seq<Item>)
    requires n <= |menu.items|
    ensures |r| == n
    decreases menu, 0, n
  {
    if n == 0 then [] else ReceivedItems(menu, n - 1) + [Received(menu.items[n - 1])]
  }
}
