/**
  Menus to bytes and back (libraries/NeilOS/GUI/NSMenu.cpp and NSMenuItem.cpp): both ways
  advance a cursor `pos` over a buffer, one field at a time, and recurse into submenus.
*/
module MenuCodec {
  import opened Wrappers
  import opened MenuFormat
  import opened MenuLaws

  // ----- writing -----

  function Sum(fields: seq<Bytes>): nat {
    if fields == [] then 0 else |fields[0]| + Sum(fields[1..])
  }

  lemma {:induction false} SumIsLength(fields: seq<Bytes>)
    ensures Sum(fields) == |Flatten(fields)|
  {
    if fields != [] { SumIsLength(fields[1..]); }
  }

  // memcpy to buffer[pos]
  method CopyField(buffer: array<Byte>, pos: nat, field: Bytes)
    requires pos + |field| <= buffer.Length
    modifies buffer
    ensures buffer[..pos] == old(buffer[..pos]) && buffer[pos..pos + |field|] == field
    ensures buffer[pos + |field|..] == old(buffer[pos + |field|..])
  {
    for i := 0 to |field|
      invariant buffer[..pos] == old(buffer[..pos]) && buffer[pos..pos + i] == field[..i]
      invariant buffer[pos + |field|..] == old(buffer[pos + |field|..])
    {
      buffer[pos + i] := field[i];
    }
  }

  // The copies of Serialize: a buffer of the summed lengths, filled field by field.
  method WriteFields(fields: seq<Bytes>) returns (buffer: array<Byte>)
    ensures fresh(buffer) && buffer[..] == Flatten(fields)
  {
    SumIsLength(fields);
    var total := Sum(fields);
    buffer := new Byte[total](_ => 0);
    var pos := 0;
    assert fields[0..] == fields;
    for k := 0 to |fields|
      invariant pos <= buffer.Length && buffer[..pos] + Flatten(fields[k..]) == Flatten(fields)
    {
      assert fields[k..][1..] == fields[k + 1..];
      ghost var before, tail := buffer[..pos], Flatten(fields[k + 1..]);
      assert Flatten(fields[k..]) == fields[k] + tail;
      assert |Flatten(fields)| == pos + |fields[k]| + |tail|;
      CopyField(buffer, pos, fields[k]);
      pos := pos + |fields[k]|;
      assert buffer[..pos] == before + fields[k];
      assert before + fields[k] + tail == before + (fields[k] + tail);
    }
    assert buffer[..pos] == Flatten(fields);
  }

  lemma One(b: Bytes)
    ensures Flatten([b]) == b
  {
    assert [b][1..] == [];
  }

  // NSMenuItem::Serialize
  method SerializeItem(item: Item) returns (buffer: array<Byte>)
    ensures fresh(buffer) && buffer[..] == ItemBytes(item)
    decreases item, 0
  {
    var sub: Bytes := [];
    if item.submenu.Some? {
      var subBuffer := SerializeMenu(item.submenu.value);
      sub := subBuffer[..];
    }
    var font, strings, image := FontFields(item), StringFields(item), ImageFields(item);
    var layout, sizes := LayoutFields(item), SizeFields(item);
    FlattenConcat(font, strings + (image + ([sub] + (layout + sizes))));
    FlattenConcat(strings, image + ([sub] + (layout + sizes)));
    FlattenConcat(image, [sub] + (layout + sizes));
    FlattenConcat([sub], layout + sizes);
    FlattenConcat(layout, sizes);
    One(sub);
    buffer := WriteFields(font + (strings + (image + ([sub] + (layout + sizes)))));
  }

  lemma MenuJoined(count: Bytes, items: Bytes, trailer: seq<Bytes>, colors: seq<Bytes>)
    ensures Flatten([count] + ([items] + (trailer + colors))) == count + (items + (Flatten(trailer) + Flatten(colors)))
  {
    FlattenConcat([count], [items] + (trailer + colors));
    FlattenConcat([items], trailer + colors);
    FlattenConcat(trailer, colors);
    One(count);
    One(items);
  }

  // NSMenu::Serialize
  method SerializeMenu(menu: Menu) returns (buffer: array<Byte>)
    ensures fresh(buffer) && buffer[..] == MenuBytes(menu)
    decreases menu, 1
  {
    var items := SerializeItems(menu);
    var count, trailer, colors := Length(|menu.items|), TrailerFields(menu), ColorFields(menu);
    MenuJoined(count, items, trailer, colors);
    buffer := WriteFields([count] + ([items] + (trailer + colors)));
  }

  // Its loop over the items.
  method SerializeItems(menu: Menu) returns (items: Bytes)
    ensures items == ItemsBytes(menu, 0)
    decreases menu, 0, |menu.items|
  {
    items := [];
    for z := 0 to |menu.items|
      invariant items + ItemsBytes(menu, z) == ItemsBytes(menu, 0)
    {
      var item := SerializeItem(menu.items[z]);
      Regroup(items, item[..], ItemsBytes(menu, z + 1));
      items := items + item[..];
    }
    assert items + [] == items;
  }

  // ----- reading -----

  /** FromData returns an object, or NULL.  It may also read past the buffer, or meet a view
      item, an image or a named font, which this model does not follow further. */
  datatype Parse<+T> = Parsed(value: T) | Null | PastEnd | Other
  {
    predicate IsFailure() { !Parsed? }
    function PropagateFailure<U>(): Parse<U>
      requires IsFailure()
    {
      match this case Null => Null case PastEnd => PastEnd case Other => Other
    }
    function Extract(): T
      requires Parsed?
    {
      value
    }
  }

  // From the cursor on the data holds fields k, k + 1, ... and then `rest`, the last of
  // which is not empty.
  ghost predicate Aligned(data: Bytes, pos: nat, fields: seq<Bytes>, k: nat, rest: Bytes) {
    && k <= |fields| && (|rest| > 0 || (|fields| > 0 && |fields[|fields| - 1]| > 0))
    && pos <= |data| && data[pos..] == Flatten(fields[k..]) + rest
  }

  lemma {:induction false} LastFits(fields: seq<Bytes>)
    requires |fields| > 0
    ensures |fields[|fields| - 1]| <= |Flatten(fields)|
  {
    if |fields| > 1 { LastFits(fields[1..]); }
  }

  lemma AlignedStep(data: Bytes, pos: nat, fields: seq<Bytes>, k: nat, rest: Bytes)
    requires Aligned(data, pos, fields, k, rest) && k < |fields|
    ensures pos < |data| && pos + |fields[k]| <= |data| && data[pos..pos + |fields[k]|] == fields[k]
    ensures Aligned(data, pos + |fields[k]|, fields, k + 1, rest)
  {
    assert fields[k..][1..] == fields[k + 1..];
    LastFits(fields[k..]);
    var n := |fields[k]|;
    assert data[pos..] == fields[k] + (Flatten(fields[k + 1..]) + rest);
    assert data[pos..][..n] == fields[k] && data[pos..][n..] == Flatten(fields[k + 1..]) + rest;
  }

  // copy(x, len) of FromData
  method Copy(data: Bytes, pos: nat, n: nat, ghost fields: seq<Bytes>, ghost k: nat, ghost rest: Bytes)
    returns (r: Parse<Bytes>, next: nat)
    ensures r.Null? <==> pos >= |data|
    ensures r.Parsed? ==> next == pos + n <= |data| && r.value == data[pos..next]
    ensures Aligned(data, pos, fields, k, rest) && k < |fields| && |fields[k]| == n ==>
      r == Parsed(fields[k]) && Aligned(data, next, fields, k + 1, rest)
  {
    next := pos;
    if Aligned(data, pos, fields, k, rest) && k < |fields| { AlignedStep(data, pos, fields, k, rest); }
    if pos >= |data| {
      return Null, pos;
    }
    if pos + n > |data| {
      return PastEnd, pos;
    }
    return Parsed(data[pos..pos + n]), pos + n;
  }

  // A 32-bit number; the caller may say which one it expects.
  method CopyU32(data: Bytes, pos: nat, ghost n: nat, ghost fields: seq<Bytes>, ghost k: nat, ghost rest: Bytes)
    returns (r: Parse<nat>, next: nat)
    ensures r.Parsed? ==> next == pos + 4 <= |data|
    ensures Aligned(data, pos, fields, k, rest) && k < |fields| && n < TWO32 && fields[k] == Length(n) ==>
      r == Parsed(n) && Aligned(data, next, fields, k + 1, rest)
  {
    next := pos;
    var length;
    length, next :- Copy(data, pos, 4, fields, k, rest);
    ReadBack(length, n);
    r := Parsed(FromU32(length));
  }

  lemma ReadBack(b: Four, n: nat)
    ensures n < TWO32 && b == Length(n) ==> FromU32(b) == n
  {
    if n < TWO32 {
      assert n % TWO32 == n;
      U32RoundTrip(n);
      Same(b, U32(n));
    }
  }

  lemma Same(b: Four, c: Four)
    ensures b == c ==> FromU32(b) == FromU32(c)
  {
  }

  // A length and that many bytes.
  method CopyString(data: Bytes, pos: nat, ghost fields: seq<Bytes>, ghost k: nat, ghost rest: Bytes)
    returns (r: Parse<Bytes>, next: nat)
    ensures r.Parsed? ==> pos <= next <= |data|
    ensures (Aligned(data, pos, fields, k, rest) && k + 1 < |fields|
             && |fields[k + 1]| < TWO32 && fields[k] == Length(|fields[k + 1]|)) ==>
      r == Parsed(fields[k + 1]) && Aligned(data, next, fields, k + 2, rest)
  {
    next := pos;
    ghost var n := if k + 1 < |fields| then |fields[k + 1]| else 0;
    var length;
    length, next :- CopyU32(data, pos, n, fields, k, rest);
    r, next := Copy(data, next, length, fields, k + 1, rest);
  }

  // NSFont::FromData, after the type; only the default font, which has no name.
  method FontFromData(data: Bytes, ghost item: Option<Item>, ghost rest: Bytes) returns (r: Parse<Four>, pos: nat)
    ensures r.Parsed? ==> 0 < pos <= |data|
    ensures item.Some? && Aligned(data, 0, FontFields(item.value), 0, rest) && |data| >= 33 ==>
      r == Parsed(item.value.fontSize) && Aligned(data, pos, FontFields(item.value), 4, rest)
  {
    ghost var f := if item.Some? then FontFields(item.value) else [];
    pos := 0;
    if |data| < 4 {
      return Null, pos;
    }
    var kind, size, name;
    kind, pos :- CopyU32(data, pos, 0, f, 0, rest);
    if kind == 1 {
      return Other, pos;
    }
    if |data| < 33 {
      return Null, pos;
    }
    size, pos :- Copy(data, pos, 4, f, 1, rest);
    name, pos :- CopyString(data, pos, f, 2, rest);
    r := if name != [] then Other else Parsed(size);
  }

  // The title and the key equivalent.
  method StringsFromData(data: Bytes, start: nat, ghost item: Option<Item>, ghost rest: Bytes)
    returns (r: Parse<(Bytes, Bytes)>, pos: nat)
    ensures r.Parsed? ==> start <= pos <= |data|
    ensures (item.Some? && |item.value.title| < TWO32 && |item.value.key| < TWO32
             && Aligned(data, start, StringFields(item.value), 0, rest)) ==>
      && r == Parsed((UpToNul(item.value.title), UpToNul(item.value.key)))
      && Aligned(data, pos, StringFields(item.value), 4, rest)
  {
    ghost var f := if item.Some? then StringFields(item.value) else [];
    pos := start;
    var title, key;
    title, pos :- CopyString(data, pos, f, 0, rest);
    key, pos :- CopyString(data, pos, f, 2, rest);
    r := Parsed((UpToNul(title), UpToNul(key)));
  }

  // Flags, image (none), and whether a submenu follows.
  method ImageFromData(data: Bytes, start: nat, ghost item: Option<Item>, ghost rest: Bytes)
    returns (r: Parse<(Four, bool)>, pos: nat)
    ensures r.Parsed? ==> start <= pos <= |data|
    ensures item.Some? && Aligned(data, start, ImageFields(item.value), 0, rest) ==>
      && r == Parsed((item.value.flags, item.value.submenu.Some?))
      && Aligned(data, pos, ImageFields(item.value), 5, rest)
  {
    ghost var f := if item.Some? then ImageFields(item.value) else [];
    pos := start;
    var flags, imageLength, imageName, hasSub;
    flags, pos :- Copy(data, pos, 4, f, 0, rest);
    imageLength, pos :- CopyU32(data, pos, 0, f, 1, rest);
    imageName, pos :- CopyString(data, pos, f, 2, rest);
    if imageLength != 0 && imageName != [] {
      return Other, pos;
    }
    hasSub, pos :- Copy(data, pos, 1, f, 4, rest);
    r := Parsed((flags, hasSub != [0]));
  }

  datatype Layout = Layout(borderHeight: Four, isSeparator: bool, highlighted: bool, enabled: bool,
                           hasAction: bool, chromatic: bool)

  function LayoutOf(item: Item): Layout {
    Layout(item.borderHeight, item.isSeparator, item.highlighted, item.enabled, item.hasAction, item.chromatic)
  }

  method CopyFlag(data: Bytes, pos: nat, ghost b: bool, ghost fields: seq<Bytes>, ghost k: nat, ghost rest: Bytes)
    returns (r: Parse<bool>, next: nat)
    ensures r.Parsed? ==> next == pos + 1 <= |data|
    ensures Aligned(data, pos, fields, k, rest) && k < |fields| && fields[k] == Flag(b) ==>
      r == Parsed(b) && Aligned(data, next, fields, k + 1, rest)
  {
    next := pos;
    var byte;
    byte, next :- Copy(data, pos, 1, fields, k, rest);
    r := Parsed(byte != [0]);
  }

  method StateFlagsFromData(data: Bytes, start: nat, ghost item: Option<Item>, ghost rest: Bytes)
    returns (r: Parse<(bool, bool, bool)>, pos: nat)
    ensures r.Parsed? ==> start <= pos <= |data|
    ensures item.Some? && Aligned(data, start, LayoutFields(item.value), 1, rest) ==>
      && r == Parsed((item.value.isSeparator, item.value.highlighted, item.value.enabled))
      && Aligned(data, pos, LayoutFields(item.value), 4, rest)
  {
    ghost var f := if item.Some? then LayoutFields(item.value) else [];
    pos := start;
    var isSeparator, highlighted, enabled;
    isSeparator, pos :- CopyFlag(data, pos, item.Some? && item.value.isSeparator, f, 1, rest);
    highlighted, pos :- CopyFlag(data, pos, item.Some? && item.value.highlighted, f, 2, rest);
    enabled, pos :- CopyFlag(data, pos, item.Some? && item.value.enabled, f, 3, rest);
    r := Parsed((isSeparator, highlighted, enabled));
  }

  // The fields after the submenu.
  method LayoutFromData(data: Bytes, start: nat, ghost item: Option<Item>, ghost rest: Bytes)
    returns (r: Parse<Layout>, pos: nat)
    ensures r.Parsed? ==> start <= pos <= |data|
    ensures item.Some? && Aligned(data, start, LayoutFields(item.value), 0, rest) ==>
      r == Parsed(LayoutOf(item.value)) && Aligned(data, pos, LayoutFields(item.value), 6, rest)
  {
    ghost var f := if item.Some? then LayoutFields(item.value) else [];
    pos := start;
    var borderHeight, state, hasAction, chromatic;
    borderHeight, pos :- Copy(data, pos, 4, f, 0, rest);
    state, pos :- StateFlagsFromData(data, pos, item, rest);
    hasAction, pos :- CopyFlag(data, pos, item.Some? && item.value.hasAction, f, 4, rest);
    chromatic, pos :- CopyFlag(data, pos, item.Some? && item.value.chromatic, f, 5, rest);
    r := Parsed(Layout(borderHeight, state.0, state.1, state.2, hasAction, chromatic));
  }

  // The item's size, with its own check of the length left, and the font height.
  method SizesFromData(data: Bytes, start: nat, ghost item: Option<Item>, ghost rest: Bytes)
    returns (r: Parse<(Eight, Four)>, pos: nat)
    ensures r.Parsed? ==> start <= pos <= |data|
    ensures item.Some? && Aligned(data, start, SizeFields(item.value), 0, rest) ==>
      && r == Parsed((item.value.size, item.value.fontHeight))
      && Aligned(data, pos, SizeFields(item.value), 2, rest)
  {
    ghost var f := if item.Some? then SizeFields(item.value) else [];
    if item.Some? && Aligned(data, start, f, 0, rest) {
      AlignedStep(data, start, f, 0, rest);
      AlignedStep(data, start + 8, f, 1, rest);
    }
    pos := start;
    if pos + 8 >= |data| {
      return Null, pos;
    }
    var size, fontHeight;
    size, pos :- Copy(data, pos, 8, f, 0, rest);
    fontHeight, pos :- Copy(data, pos, 4, f, 1, rest);
    r := Parsed((size, fontHeight));
  }

  // ----- the groups of an item, one after the other -----

  ghost function AfterLayout(item: Item, rest: Bytes): Bytes { Flatten(SizeFields(item)) + rest }
  ghost function AfterSubmenu(item: Item, rest: Bytes): Bytes { Flatten(LayoutFields(item)) + AfterLayout(item, rest) }
  ghost function Submenu(item: Item): Bytes { if item.submenu.Some? then MenuBytes(item.submenu.value) else [] }
  ghost function AfterImage(item: Item, rest: Bytes): Bytes { Submenu(item) + AfterSubmenu(item, rest) }
  ghost function AfterStrings(item: Item, rest: Bytes): Bytes { Flatten(ImageFields(item)) + AfterImage(item, rest) }
  ghost function AfterFont(item: Item, rest: Bytes): Bytes { Flatten(StringFields(item)) + AfterStrings(item, rest) }

  lemma Regroup(a: Bytes, b: Bytes, c: Bytes)
    ensures (a + b) + c == a + (b + c)
  {
  }

  lemma ItemGroups(item: Item, rest: Bytes)
    ensures ItemBytes(item) + rest == Flatten(FontFields(item)) + AfterFont(item, rest)
  {
    var font, strings, image := Flatten(FontFields(item)), Flatten(StringFields(item)), Flatten(ImageFields(item));
    var sub, layout, sizes := Submenu(item), Flatten(LayoutFields(item)), Flatten(SizeFields(item));
    Regroup(layout, sizes, rest);
    Regroup(sub, layout + sizes, rest);
    Regroup(image, sub + (layout + sizes), rest);
    Regroup(strings, image + (sub + (layout + sizes)), rest);
    Regroup(font, strings + (image + (sub + (layout + sizes))), rest);
  }

  // One group ends where the next begins.
  lemma NextGroup(data: Bytes, pos: nat, f: seq<Bytes>, after: Bytes, g: seq<Bytes>, rest: Bytes)
    requires Aligned(data, pos, f, |f|, after) && after == Flatten(g) + rest
    requires |rest| > 0 || (|g| > 0 && |g[|g| - 1]| > 0)
    ensures Aligned(data, pos, g, 0, rest)
  {
    assert Flatten(f[|f|..]) == [] && g[0..] == g;
    assert data[pos..] == [] + after == after;
  }

  lemma NotEmpty(item: Item, rest: Bytes)
    ensures |AfterLayout(item, rest)| > 0 && |AfterSubmenu(item, rest)| > 0 && |AfterImage(item, rest)| > 0
    ensures |AfterStrings(item, rest)| > 0 && |AfterFont(item, rest)| > 0
  {
    LastFits(SizeFields(item));
  }

  lemma GroupLengths(item: Item)
    ensures |Flatten(FontFields(item))| == 12
    ensures |Flatten(StringFields(item))| == 8 + |item.title| + |item.key|
    ensures |Flatten(ImageFields(item))| == 13
  {
    FourLengths(FontFields(item));
    FourLengths(StringFields(item));
    assert ImageFields(item) == [item.flags] + ImageFields(item)[1..];
    FlattenConcat([item.flags], ImageFields(item)[1..]);
    One(item.flags);
    FourLengths(ImageFields(item)[1..]);
  }

  lemma FourLengths(f: seq<Bytes>)
    requires |f| == 4
    ensures |Flatten(f)| == |f[0]| + |f[1]| + |f[2]| + |f[3]|
  {
    assert f == [f[0]] + ([f[1]] + ([f[2]] + [f[3]]));
    FlattenConcat([f[0]], [f[1]] + ([f[2]] + [f[3]]));
    FlattenConcat([f[1]], [f[2]] + [f[3]]);
    FlattenConcat([f[2]], [f[3]]);
    One(f[0]);
    One(f[1]);
    One(f[2]);
    One(f[3]);
  }

  lemma ItemStart(item: Item, data: Bytes, rest: Bytes)
    requires data == ItemBytes(item) + rest && |ItemBytes(item)| < TWO32
    ensures |data| >= 33 && |item.title| < TWO32 && |item.key| < TWO32
    ensures Aligned(data, 0, FontFields(item), 0, AfterFont(item, rest))
  {
    GroupLengths(item);
    ItemGroups(item, rest);
    NotEmpty(item, rest);
    assert FontFields(item)[0..] == FontFields(item) && data[0..] == data;
  }

  lemma SubmenuFits(item: Item)
    ensures |Submenu(item)| <= |ItemBytes(item)|
  {
  }

  lemma ItemEnd(item: Item, data: Bytes, pos: nat, rest: Bytes)
    requires data == ItemBytes(item) + rest
    requires Aligned(data, pos, SizeFields(item), 2, rest)
    ensures pos == |ItemBytes(item)|
  {
    assert Flatten(SizeFields(item)[2..]) == [];
    assert |data[pos..]| == |rest|;
  }

  lemma SubmenuHere(item: Item, data: Bytes, pos: nat, rest: Bytes)
    requires Aligned(data, pos, ImageFields(item), 5, AfterImage(item, rest))
    ensures pos <= |data| && data[pos..] == Submenu(item) + AfterSubmenu(item, rest)
  {
    assert Flatten(ImageFields(item)[5..]) == [];
    assert data[pos..] == [] + AfterImage(item, rest) == AfterImage(item, rest);
  }

  lemma SubmenuPassed(item: Item, data: Bytes, pos: nat, rest: Bytes)
    requires pos <= |data| && data[pos..] == Submenu(item) + AfterSubmenu(item, rest)
    ensures pos + |Submenu(item)| <= |data|
    ensures Aligned(data, pos + |Submenu(item)|, LayoutFields(item), 0, AfterLayout(item, rest))
  {
    NotEmpty(item, rest);
    assert data[pos..][|Submenu(item)|..] == AfterSubmenu(item, rest);
    assert LayoutFields(item)[0..] == LayoutFields(item);
  }

  // Everything before the submenu.
  datatype Head = Head(fontSize: Four, title: Bytes, key: Bytes, flags: Four, hasSubmenu: bool)

  function HeadOf(item: Item): Head {
    Head(item.fontSize, UpToNul(item.title), UpToNul(item.key), item.flags, item.submenu.Some?)
  }

  method HeadFromData(data: Bytes, ghost item: Option<Item>, ghost rest: Bytes) returns (r: Parse<Head>, pos: nat)
    requires item.Some? ==> data == ItemBytes(item.value) + rest && |ItemBytes(item.value)| < TWO32
    ensures r.Parsed? ==> 0 < pos <= |data|
    ensures item.Some? ==> r == Parsed(HeadOf(item.value)) && pos <= |data|
    ensures item.Some? ==> data[pos..] == Submenu(item.value) + AfterSubmenu(item.value, rest)
  {
    ghost var r1, r2, r3: Bytes := [], [], [];
    if item.Some? {
      ItemStart(item.value, data, rest);
      NotEmpty(item.value, rest);
      r1, r2, r3 := AfterFont(item.value, rest), AfterStrings(item.value, rest), AfterImage(item.value, rest);
    }
    var fontSize, strings, image;
    fontSize, pos :- FontFromData(data, item, r1);
    if item.Some? { NextGroup(data, pos, FontFields(item.value), r1, StringFields(item.value), r2); }
    strings, pos :- StringsFromData(data, pos, item, r2);
    if item.Some? { NextGroup(data, pos, StringFields(item.value), r2, ImageFields(item.value), r3); }
    image, pos :- ImageFromData(data, pos, item, r3);
    if item.Some? { SubmenuHere(item.value, data, pos, rest); }
    r := Parsed(Head(fontSize, strings.0, strings.1, image.0, image.1));
  }

  // Everything after it.
  method TailFromData(data: Bytes, start: nat, ghost item: Option<Item>, ghost rest: Bytes)
    returns (r: Parse<(Layout, Eight, Four)>, pos: nat)
    requires item.Some? ==> data == ItemBytes(item.value) + rest
    requires item.Some? ==> Aligned(data, start, LayoutFields(item.value), 0, AfterLayout(item.value, rest))
    ensures r.Parsed? ==> start <= pos <= |data|
    ensures item.Some? ==> r == Parsed((LayoutOf(item.value), item.value.size, item.value.fontHeight))
    ensures item.Some? ==> pos == |ItemBytes(item.value)|
  {
    ghost var r5 := if item.Some? then AfterLayout(item.value, rest) else [];
    var layout, sizes;
    layout, pos :- LayoutFromData(data, start, item, r5);
    if item.Some? { NextGroup(data, pos, LayoutFields(item.value), r5, SizeFields(item.value), rest); }
    sizes, pos :- SizesFromData(data, pos, item, rest);
    if item.Some? { ItemEnd(item.value, data, pos, rest); }
    r := Parsed((layout, sizes.0, sizes.1));
  }

  /** NSMenuItem::FromData.  On the bytes of any item, with anything after them, it consumes
      exactly those bytes and gives the item back as `Received` says. */
  method ItemFromData(data: Bytes, ghost item: Option<Item>, ghost rest: Bytes) returns (r: Parse<(Item, nat)>)
    requires item.Some? ==> data == ItemBytes(item.value) + rest && |ItemBytes(item.value)| < TWO32
    ensures r.Parsed? ==> 0 < r.value.1 <= |data|
    ensures item.Some? ==> r == Parsed((Received(item.value), |ItemBytes(item.value)|))
    decreases |data|, 3
  {
    var pos: nat;
    var head, tail;
    head, pos :- HeadFromData(data, item, rest);
    var submenu: Option<Menu> := None;
    ghost var at := pos;
    if head.hasSubmenu {
      ghost var sub := if item.Some? then item.value.submenu else None;
      ghost var after := if item.Some? then AfterSubmenu(item.value, rest) else [];
      if item.Some? { SubmenuFits(item.value); }
      var parsed :- MenuFromData(data[pos..], sub, after);
      submenu := Some(parsed.0);
      pos := pos + parsed.1;
    }
    if item.Some? { SubmenuPassed(item.value, data, at, rest); }
    tail, pos :- TailFromData(data, pos, item, rest);
    var layout := tail.0;
    r := Parsed((Item(head.fontSize, head.title, head.key, head.flags, submenu,
                      layout.borderHeight, layout.isSeparator, layout.highlighted,
                      layout.enabled && (layout.hasAction || submenu.Some?), false, layout.chromatic,
                      tail.1, tail.2), pos));
  }

  // ----- the list of items and the trailer of a menu -----

  ghost function AfterTrailer(menu: Menu, rest: Bytes): Bytes { Flatten(ColorFields(menu)) + rest }
  ghost function AfterItems(menu: Menu, rest: Bytes): Bytes { Flatten(TrailerFields(menu)) + AfterTrailer(menu, rest) }

  lemma MenuStart(menu: Menu, data: Bytes, rest: Bytes)
    requires data == MenuBytes(menu) + rest && |MenuBytes(menu)| < TWO32
    ensures |data| >= 49 && |AfterTrailer(menu, rest)| > 0 && |AfterItems(menu, rest)| > 0
    ensures Aligned(data, 0, [Length(|menu.items|)], 0, ItemsBytes(menu, 0) + AfterItems(menu, rest))
    ensures |ItemsBytes(menu, 0)| < TWO32 && |menu.items| <= |ItemsBytes(menu, 0)|
  {
    FourLengths(TrailerFields(menu));
    assert ColorFields(menu) == [menu.background] + ColorFields(menu)[1..];
    FlattenConcat([menu.background], ColorFields(menu)[1..]);
    One(menu.background);
    FourLengths(ColorFields(menu)[1..]);
    var trailer, colors := Flatten(TrailerFields(menu)), Flatten(ColorFields(menu));
    Regroup(trailer, colors, rest);
    Regroup(ItemsBytes(menu, 0), trailer + colors, rest);
    Regroup(Length(|menu.items|), ItemsBytes(menu, 0) + (trailer + colors), rest);
    var length: Bytes := Length(|menu.items|);
    var count: seq<Bytes> := [length];
    One(length);
    assert count[0..] == count && data[0..] == data;
    ItemsAreLong(menu, 0);
  }

  // Every item takes bytes, so a menu that fits in 32 bits has a 32-bit count.
  lemma {:induction false} ItemsAreLong(menu: Menu, z: nat)
    requires z <= |menu.items|
    ensures |menu.items| - z <= |ItemsBytes(menu, z)|
    decreases |menu.items| - z
  {
    if z < |menu.items| {
      GroupLengths(menu.items[z]);
      ItemsAreLong(menu, z + 1);
    }
  }

  lemma ItemHere(menu: Menu, z: nat, here: Bytes, after: Bytes)
    requires z < |menu.items| && here == ItemsBytes(menu, z) + after
    ensures here == ItemBytes(menu.items[z]) + (ItemsBytes(menu, z + 1) + after)
    ensures |ItemBytes(menu.items[z])| <= |here|
    ensures here[|ItemBytes(menu.items[z])|..] == ItemsBytes(menu, z + 1) + after
  {
    var item, items := ItemBytes(menu.items[z]), ItemsBytes(menu, z + 1);
    assert ItemsBytes(menu, z) == item + items;
    assert here == item + (items + after);
  }

  datatype Trailer = Trailer(isContext: bool, frame: Sixteen, borderRadius: Four, orientation: Four)

  method TrailerFromData(data: Bytes, start: nat, ghost menu: Option<Menu>, ghost rest: Bytes)
    returns (r: Parse<Trailer>, pos: nat)
    ensures r.Parsed? ==> start <= pos <= |data|
    ensures menu.Some? && |rest| > 0 && Aligned(data, start, TrailerFields(menu.value), 0, rest) ==>
      && r == Parsed(Trailer(menu.value.isContext, menu.value.frame, menu.value.borderRadius, menu.value.orientation))
      && Aligned(data, pos, TrailerFields(menu.value), 4, rest)
  {
    ghost var f := if menu.Some? then TrailerFields(menu.value) else [];
    ghost var context := menu.Some? && menu.value.isContext;
    pos := start;
    var isContext, frame, borderRadius, orientation;
    isContext, pos :- CopyFlag(data, pos, context, f, 0, rest);
    if menu.Some? && Aligned(data, pos, f, 1, rest) {
      AlignedStep(data, pos, f, 1, rest);
      AlignedStep(data, pos + 16, f, 2, rest);
    }
    if pos + 16 >= |data| {
      return Null, pos;
    }
    frame, pos :- Copy(data, pos, 16, f, 1, rest);
    borderRadius, pos :- Copy(data, pos, 4, f, 2, rest);
    orientation, pos :- Copy(data, pos, 4, f, 3, rest);
    r := Parsed(Trailer(isContext, frame, borderRadius, orientation));
  }

  method ColorsFromData(data: Bytes, start: nat, ghost menu: Option<Menu>, ghost rest: Bytes)
    returns (r: Parse<(Four, Four, Four, Four, Four)>, pos: nat)
    ensures r.Parsed? ==> start <= pos <= |data|
    ensures menu.Some? && Aligned(data, start, ColorFields(menu.value), 0, rest) ==>
      && r == Parsed((menu.value.background, menu.value.highlight, menu.value.border,
                      menu.value.text, menu.value.textHighlight))
      && Aligned(data, pos, ColorFields(menu.value), 5, rest)
  {
    ghost var f := if menu.Some? then ColorFields(menu.value) else [];
    pos := start;
    var background, highlight, border, text, textHighlight;
    background, pos :- Copy(data, pos, 4, f, 0, rest);
    highlight, pos :- Copy(data, pos, 4, f, 1, rest);
    border, pos :- Copy(data, pos, 4, f, 2, rest);
    text, pos :- Copy(data, pos, 4, f, 3, rest);
    textHighlight, pos :- Copy(data, pos, 4, f, 4, rest);
    r := Parsed((background, highlight, border, text, textHighlight));
  }

  // One turn of the loop over the items.
  method NextItemFromData(data: Bytes, pos: nat, ghost menu: Option<Menu>, ghost z: nat, ghost after: Bytes)
    returns (r: Parse<Item>, next: nat)
    requires 0 < pos <= |data|
    requires menu.Some? ==> z < |menu.value.items| && data[pos..] == ItemsBytes(menu.value, z) + after
    requires menu.Some? ==> |after| > 0 && |ItemsBytes(menu.value, z)| < TWO32
    ensures r.Parsed? ==> pos <= next < |data|
    ensures menu.Some? ==> r == Parsed(Received(menu.value.items[z]))
    ensures menu.Some? ==> data[next..] == ItemsBytes(menu.value, z + 1) + after
    decreases |data|, 0
  {
    next := pos;
    ghost var item: Option<Item> := if menu.Some? then Some(menu.value.items[z]) else None;
    ghost var behind := if menu.Some? then ItemsBytes(menu.value, z + 1) + after else [];
    if menu.Some? { ItemHere(menu.value, z, data[pos..], after); }
    var parsed :- ItemFromData(data[pos..], item, behind);
    next := pos + parsed.1;
    assert data[pos..][parsed.1..] == data[next..];
    r := if next >= |data| then Null else Parsed(parsed.0);
  }

  // The loop over the items.
  method ItemsFromData(data: Bytes, start: nat, n: nat, ghost menu: Option<Menu>, ghost after: Bytes)
    returns (r: Parse<seq<Item>>, pos: nat)
    requires 0 < start <= |data|
    requires menu.Some? ==> n == |menu.value.items| && data[start..] == ItemsBytes(menu.value, 0) + after
    requires menu.Some? ==> |after| > 0 && |ItemsBytes(menu.value, 0)| < TWO32
    ensures r.Parsed? ==> start <= pos <= |data|
    ensures menu.Some? ==> r == Parsed(ReceivedItems(menu.value, n)) && data[pos..] == after
    decreases |data|, 1
  {
    pos := start;
    var items: seq<Item> := [];
    for z := 0 to n
      invariant start <= pos <= |data|
      invariant menu.Some? ==> data[pos..] == ItemsBytes(menu.value, z) + after
      invariant menu.Some? ==> |ItemsBytes(menu.value, z)| < TWO32 && items == ReceivedItems(menu.value, z)
    {
      var item;
      item, pos :- NextItemFromData(data, pos, menu, z, after);
      items := items + [item];
    }
    r := Parsed(items);
  }

  /** NSMenu::FromData, likewise. */
  method MenuFromData(data: Bytes, ghost menu: Option<Menu>, ghost rest: Bytes) returns (r: Parse<(Menu, nat)>)
    requires menu.Some? ==> data == MenuBytes(menu.value) + rest && |MenuBytes(menu.value)| < TWO32
    ensures |data| < 45 ==> r.Null?
    ensures r.Parsed? ==> 0 < r.value.1 <= |data|
    ensures menu.Some? ==> r == Parsed((ReceivedMenu(menu.value), |MenuBytes(menu.value)|))
    decreases |data|, 2
  {
    ghost var n, f, r1, r2, r3: Bytes := 0, [], [], [], [];
    if menu.Some? {
      MenuStart(menu.value, data, rest);
      n, f := |menu.value.items|, [Length(|menu.value.items|)];
      r2, r3 := AfterItems(menu.value, rest), AfterTrailer(menu.value, rest);
      r1 := ItemsBytes(menu.value, 0) + r2;
    }
    if |data| < 45 {
      return Null;
    }
    var pos: nat := 0;
    var count, items, trailer, colors;
    count, pos :- CopyU32(data, pos, n, f, 0, r1);
    if menu.Some? {
      assert Flatten(f[1..]) == [];
      assert data[pos..] == [] + r1 == r1;
    }
    items, pos :- ItemsFromData(data, pos, count, menu, r2);
    if menu.Some? { assert TrailerFields(menu.value)[0..] == TrailerFields(menu.value); }
    trailer, pos :- TrailerFromData(data, pos, menu, r3);
    if menu.Some? { NextGroup(data, pos, TrailerFields(menu.value), r3, ColorFields(menu.value), rest); }
    colors, pos :- ColorsFromData(data, pos, menu, rest);
    if menu.Some? {
      assert Flatten(ColorFields(menu.value)[5..]) == [];
      assert |data[pos..]| == |rest|;
    }
    r := Parsed((Menu(items, trailer.isContext, trailer.frame, trailer.borderRadius, trailer.orientation,
                      colors.0, colors.1, colors.2, colors.3, colors.4), pos));
  }

  /** A menu sent and received is the same menu, but for its strings' tails after a NUL, its
      actions, and the items these leave disabled. */
  method RoundTrip(menu: Menu) returns (received: Menu)
    requires |MenuBytes(menu)| < TWO32
    ensures received == ReceivedMenu(menu)
    ensures |received.items| == |menu.items|
    ensures received == menu <==> PlainMenu(menu)
    ensures PlainMenu(received) <==> LastingMenu(menu)
  {
    var buffer := SerializeMenu(menu);
    assert buffer[..] == MenuBytes(menu) + [];
    var parsed := MenuFromData(buffer[..], Some(menu), []);
    received := parsed.value.0;
    ItemsArrive(menu);
    MenuSameIff(menu);
    MenuLastsIff(menu);
  }
}
