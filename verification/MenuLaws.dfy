/**
  What the menu format promises: where each field lies, and which menus arrive as they were sent
  (libraries/NeilOS/GUI/NSMenu.cpp and NSMenuItem.cpp).
*/
module MenuLaws {
  import opened Wrappers
  import opened MenuFormat

  // ----- the bytes, in order -----

  // Byte by byte, from the lowest, a number is divided by 256.
  lemma LowestByteFirst(n: nat)
    requires n < TWO32
    ensures U32(n)[0] == n % 0x100
    ensures n < 0x100_0000 ==> U32(n)[3] == 0 && U32(0x100 * n)[1..] == U32(n)[..3]
  {
  }

  lemma FlattenOne(a: Bytes)
    ensures Flatten([a]) == a
  {
    assert [a][1..] == [] && Flatten([]) == [];
  }

  lemma FlattenTwo(a: Bytes, b: Bytes)
    ensures Flatten([a, b]) == a + b
  {
    assert [a, b][1..] == [b];
    FlattenOne(b);
  }

  lemma FlattenFour(a: Bytes, b: Bytes, c: Bytes, d: Bytes)
    ensures Flatten([a, b, c, d]) == a + b + c + d
  {
    assert [a, b, c, d] == [a, b] + [c, d];
    FlattenConcat([a, b], [c, d]);
    FlattenTwo(a, b);
    FlattenTwo(c, d);
  }

  lemma FlattenFive(a: Bytes, b: Bytes, c: Bytes, d: Bytes, e: Bytes)
    ensures Flatten([a, b, c, d, e]) == a + b + c + d + e
  {
    assert [a, b, c, d, e] == [a, b, c, d] + [e];
    FlattenOne(e);
    FlattenConcat([a, b, c, d], [e]);
    FlattenFour(a, b, c, d);
  }

  lemma FlattenSix(a: Bytes, b: Bytes, c: Bytes, d: Bytes, e: Bytes, f: Bytes)
    ensures Flatten([a, b, c, d, e, f]) == a + b + c + d + e + f
  {
    assert [a, b, c, d, e, f] == [a, b, c, d] + [e, f];
    FlattenConcat([a, b, c, d], [e, f]);
    FlattenFour(a, b, c, d);
    FlattenTwo(e, f);
  }

  lemma Regroup(a: Bytes, b: Bytes, c: Bytes, d: Bytes, e: Bytes)
    ensures a + (b + (c + (d + e))) == a + b + c + d + e
    ensures a + b + (c + d + e) == a + b + c + d + e
  {
  }

  // The fields of an item before and after its submenu.
  function Front(item: Item): Bytes {
    [0, 0, 0, 0] + item.fontSize + [0, 0, 0, 0]
    + Length(|item.title|) + item.title + Length(|item.key|) + item.key
    + item.flags + [0, 0, 0, 0] + [0, 0, 0, 0] + [if item.submenu.Some? then 1 else 0]
  }

  function Back(item: Item): Bytes {
    item.borderHeight
    + [if item.isSeparator then 1 else 0] + [if item.highlighted then 1 else 0] + [if item.enabled then 1 else 0]
    + [if item.hasAction then 1 else 0] + [if item.chromatic then 1 else 0]
    + item.size + item.fontHeight
  }

  lemma FrontIs(item: Item)
    ensures Flatten(FontFields(item)) + Flatten(StringFields(item)) + Flatten(ImageFields(item)) == Front(item)
  {
    var font, strings := [0, 0, 0, 0] + item.fontSize + [0, 0, 0, 0],
                         Length(|item.title|) + item.title + Length(|item.key|) + item.key;
    var image := item.flags + [0, 0, 0, 0] + [0, 0, 0, 0] + Flag(item.submenu.Some?);
    assert Length(0) == [0, 0, 0, 0];
    FlattenFour(Length(0), item.fontSize, Length(0), []);
    FlattenFour(Length(|item.title|), item.title, Length(|item.key|), item.key);
    FlattenFive(item.flags, Length(0), Length(0), [], Flag(item.submenu.Some?));
    assert font + [] == font;
    assert item.flags + [0, 0, 0, 0] + [0, 0, 0, 0] + [] == item.flags + [0, 0, 0, 0] + [0, 0, 0, 0];
    assert font + strings ==
      font + Length(|item.title|) + item.title + Length(|item.key|) + item.key;
    assert font + strings + image ==
      (font + strings) + item.flags + [0, 0, 0, 0] + [0, 0, 0, 0] + Flag(item.submenu.Some?);
  }

  lemma BackIs(item: Item)
    ensures Flatten(LayoutFields(item)) + Flatten(SizeFields(item)) == Back(item)
  {
    FlattenSix(item.borderHeight, Flag(item.isSeparator), Flag(item.highlighted), Flag(item.enabled),
               Flag(item.hasAction), Flag(item.chromatic));
    FlattenTwo(item.size, item.fontHeight);
    var layout := Flatten(LayoutFields(item));
    assert layout + (item.size + item.fontHeight) == layout + item.size + item.fontHeight;
  }

  /** The bytes of an item: its type, its font, two strings after their lengths, the flags, no
      image, whether a submenu follows; the submenu; the border height, five flags, two sizes. */
  lemma ItemInOrder(item: Item)
    ensures ItemBytes(item) ==
      Front(item) + (if item.submenu.Some? then MenuBytes(item.submenu.value) else []) + Back(item)
  {
    var font, strings, image := Flatten(FontFields(item)), Flatten(StringFields(item)), Flatten(ImageFields(item));
    var submenu := if item.submenu.Some? then MenuBytes(item.submenu.value) else [];
    FrontIs(item);
    BackIs(item);
    Regroup(font, strings, image, submenu, Back(item));
  }

  /** The bytes of a menu: the number of items, the items, a flag, the frame, two fields, five colours. */
  lemma MenuInOrder(menu: Menu)
    ensures MenuBytes(menu) ==
      Length(|menu.items|) + ItemsBytes(menu, 0) + [if menu.isContext then 1 else 0]
      + menu.frame + menu.borderRadius + menu.orientation
      + menu.background + menu.highlight + menu.border + menu.text + menu.textHighlight
  {
    FlattenFour(Flag(menu.isContext), menu.frame, menu.borderRadius, menu.orientation);
    FlattenFive(menu.background, menu.highlight, menu.border, menu.text, menu.textHighlight);
  }

  // ----- what arrives -----

  predicate NoNul(b: Bytes) { 0 !in b }

  lemma {:induction false} UpToNulIs(b: Bytes)
    ensures UpToNul(b) <= b && NoNul(UpToNul(b))
    ensures UpToNul(b) == b || b[|UpToNul(b)|] == 0
    ensures UpToNul(b) == b <==> NoNul(b)
  {
    if b != [] && b[0] != 0 {
      UpToNulIs(b[1..]);
      assert b == [b[0]] + b[1..];
    }
  }

  // No string holds a NUL, there is no action, and only items with a submenu are enabled.
  predicate PlainItem(item: Item)
    decreases item
  {
    && NoNul(item.title) && NoNul(item.key) && !item.hasAction
    && (item.enabled ==> item.submenu.Some?)
    && (item.submenu.Some? ==> PlainMenu(item.submenu.value))
  }

  predicate PlainMenu(menu: Menu)
    decreases menu
  {
    forall i :: 0 <= i < |menu.items| ==> PlainItem(menu.items[i])
  }

  lemma {:induction false} ReceivedAt(menu: Menu, n: nat, i: nat)
    requires i < n <= |menu.items|
    ensures ReceivedItems(menu, n)[i] == Received(menu.items[i])
    decreases n
  {
    if i < n - 1 { ReceivedAt(menu, n - 1, i); }
  }

  /** All items of a menu arrive, in their order. */
  lemma ItemsArrive(menu: Menu)
    ensures |ReceivedMenu(menu).items| == |menu.items|
    ensures forall i :: 0 <= i < |menu.items| ==> ReceivedMenu(menu).items[i] == Received(menu.items[i])
  {
    forall i | 0 <= i < |menu.items| ensures ReceivedMenu(menu).items[i] == Received(menu.items[i]) {
      ReceivedAt(menu, |menu.items|, i);
    }
  }

  /** An item arrives enabled exactly when it was, and had an action or a submenu; it arrives with a
      submenu exactly when it had one, never with an action, each string up to its first NUL, and
      all else as it was. */
  lemma ItemArrives(item: Item)
    ensures Received(item).enabled <==> item.enabled && (item.hasAction || item.submenu.Some?)
    ensures Received(item).submenu.Some? <==> item.submenu.Some?
    ensures !Received(item).hasAction
    ensures var title := Received(item).title;
      title <= item.title && NoNul(title) && (title == item.title || item.title[|title|] == 0)
    ensures var key := Received(item).key;
      key <= item.key && NoNul(key) && (key == item.key || item.key[|key|] == 0)
    ensures item == Received(item).(title := item.title, key := item.key, submenu := item.submenu,
                                    enabled := item.enabled, hasAction := item.hasAction)
  {
    UpToNulIs(item.title);
    UpToNulIs(item.key);
  }

  lemma {:induction false} ItemSameIff(item: Item)
    ensures Received(item) == item <==> PlainItem(item)
    decreases item, 0
  {
    UpToNulIs(item.title);
    UpToNulIs(item.key);
    if item.submenu.Some? { MenuSameIff(item.submenu.value); }
  }

  /** A menu arrives as it was sent exactly when no string holds a NUL, no item has an action, and
      every enabled item has a submenu, all the way down. */
  lemma {:induction false} MenuSameIff(menu: Menu)
    ensures ReceivedMenu(menu) == menu <==> PlainMenu(menu)
    decreases menu, 1
  {
    ItemsArrive(menu);
    forall i | 0 <= i < |menu.items| ensures Received(menu.items[i]) == menu.items[i] <==> PlainItem(menu.items[i]) {
      ItemSameIff(menu.items[i]);
    }
    if PlainMenu(menu) { assert ReceivedMenu(menu).items == menu.items; }
  }

  // No item is enabled for its action alone.
  predicate LastingItem(item: Item)
    decreases item
  {
    && (item.enabled && item.hasAction ==> item.submenu.Some?)
    && (item.submenu.Some? ==> LastingMenu(item.submenu.value))
  }

  predicate LastingMenu(menu: Menu)
    decreases menu
  {
    forall i :: 0 <= i < |menu.items| ==> LastingItem(menu.items[i])
  }

  lemma {:induction false} ItemLastsIff(item: Item)
    ensures PlainItem(Received(item)) <==> LastingItem(item)
    decreases item, 0
  {
    ItemArrives(item);
    if item.submenu.Some? {
      MenuLastsIff(item.submenu.value);
      assert Received(item).submenu == Some(ReceivedMenu(item.submenu.value));
    }
  }

  /** Sent on, what arrived is disabled further exactly when some item was enabled for its action
      alone: it arrives enabled, but without the action, and the next copy is disabled. */
  lemma {:induction false} MenuLastsIff(menu: Menu)
    ensures PlainMenu(ReceivedMenu(menu)) <==> LastingMenu(menu)
    ensures ReceivedMenu(ReceivedMenu(menu)) == ReceivedMenu(menu) <==> LastingMenu(menu)
    decreases menu, 1
  {
    ItemsArrive(menu);
    forall i | 0 <= i < |menu.items| ensures PlainItem(Received(menu.items[i])) <==> LastingItem(menu.items[i]) {
      ItemLastsIff(menu.items[i]);
    }
    MenuSameIff(ReceivedMenu(menu));
  }
}
