/** Reading TLS hellos: extension walks that are safe on every byte string and exact on well-formed
    hellos (src/protocol/tls.rs, src/tls_front/fetcher.rs; sections 4.1.2, 4.1.3 and 4.2 of RFC 8446,
    section 3 of RFC 6066, section 3.1 of RFC 7301). */
module Hello {
  import opened Bytes
  import opened Io

  function Be16(n: nat): (r: seq<byte>)
    requires n < 0x1_0000
    ensures |r| == 2
  {
    [n / 256, n % 256]
  }

  function FromBe16(b: seq<byte>): (n: nat)
    requires |b| == 2
    ensures n < 0x1_0000
  {
    var hi: int, lo: int := b[0], b[1];
    256 * hi + lo
  }

  /** A sixteen-bit length field; longer lengths lose their high bits. */
  function Low16(n: nat): (r: seq<byte>)
    ensures |r| == 2
  {
    Be16(n % 0x1_0000)
  }

  /** A list item: its kind, and data behind a length prefix. */
  datatype Item = Item(kind: nat, data: seq<byte>)

  /** The three list formats: extensions, server names, protocol names. */
  datatype Format = Extensions | ServerNames | Protocols

  function HeadSize(f: Format): nat {
    match f
    case Extensions => 4
    case ServerNames => 3
    case Protocols => 1
  }

  function ItemBytes(f: Format, it: Item): seq<byte>
    requires Fits(f, it)
  {
    match f
    case Extensions => Be16(it.kind) + Be16(|it.data|) + it.data
    case ServerNames => [it.kind] + Be16(|it.data|) + it.data
    case Protocols => [|it.data|] + it.data
  }

  predicate Fits(f: Format, it: Item) {
    match f
    case Extensions => it.kind < 0x1_0000 && |it.data| < 0x1_0000
    case ServerNames => it.kind < 0x100 && |it.data| < 0x1_0000
    case Protocols => it.kind == 0 && |it.data| < 0x100
  }

  predicate AllFit(f: Format, items: seq<Item>) {
    forall it :: it in items ==> Fits(f, it)
  }

  function ListBytes(f: Format, items: seq<Item>): seq<byte>
    requires AllFit(f, items)
  {
    if items == [] then [] else ItemBytes(f, items[0]) + ListBytes(f, items[1..])
  }

  /** Kind and length announced by the head of the first item. */
  function HeadOf(f: Format, b: seq<byte>): (nat, nat)
    requires |b| >= HeadSize(f)
  {
    match f
    case Extensions => (FromBe16(b[..2]), FromBe16(b[2..4]))
    case ServerNames => (b[0], FromBe16(b[1..3]))
    case Protocols => (0, b[0])
  }

  /** The items of a list, up to the first one that is cut off. */
  function Items(f: Format, b: seq<byte>): seq<Item>
    decreases |b|
  {
    if |b| < HeadSize(f) then []
    else
      var (kind, len) := HeadOf(f, b);
      var size := HeadSize(f) + len;
      if size > |b| then []
      else [Item(kind, b[HeadSize(f)..size])] + Items(f, b[size..])
  }

  /** Reading a well-formed list gives its items back. */
  lemma {:induction false} ItemsOfList(f: Format, items: seq<Item>)
    requires AllFit(f, items)
    ensures Items(f, ListBytes(f, items)) == items
    decreases |items|
  {
    if items != [] {
      var first, rest := ItemBytes(f, items[0]), ListBytes(f, items[1..]);
      var all := first + rest;
      FirstItem(f, items[0], rest);
      assert all[|first|..] == rest;
      ItemsOfList(f, items[1..]);
    }
  }

  lemma FirstItem(f: Format, it: Item, rest: seq<byte>)
    requires Fits(f, it)
    ensures var all := ItemBytes(f, it) + rest;
            && |all| >= HeadSize(f) && HeadOf(f, all) == (it.kind, |it.data|)
            && |ItemBytes(f, it)| == HeadSize(f) + |it.data|
            && all[HeadSize(f)..HeadSize(f) + |it.data|] == it.data
  {
    var all := ItemBytes(f, it) + rest;
    match f {
      case Extensions =>
        assert all[..2] == Be16(it.kind) && all[2..4] == Be16(|it.data|);
      case ServerNames =>
        assert all[1..3] == Be16(|it.data|);
      case Protocols =>
    }
  }

  /** One step of a walk: the item at `pos`, or nothing when what is left is cut off. */
  method NextItem(f: Format, b: seq<byte>, pos: nat, end: nat) returns (it: Option<Item>, next: nat)
    requires pos <= end <= |b|
    ensures pos <= next <= end && (it.Some? ==> pos < next)
    ensures it.Some? ==> Fits(f, it.value)
    ensures Items(f, b[pos..end])
         == if it.None? then [] else [it.value] + Items(f, b[next..end])
  {
    hide Items, HeadOf, FromBe16;
    ghost var here := b[pos..end];
    ItemsUnfold(f, here);
    var size := HeadSize(f);
    if pos + size > end {
      return None, pos;
    }
    var head := b[pos..pos + size];
    HeadIsLocal(f, here);
    SubSlice(b, pos, end, 0, size);
    var (kind, len) := HeadOf(f, head);
    next := pos + size + len;
    if next > end {
      return None, pos;
    }
    it := Some(Item(kind, b[pos + size..next]));
    SubSlice(b, pos, end, size, size + len);
    SubSlice(b, pos, end, size + len, end - pos);
    HeadIsSmall(f, head);
  }

  lemma SubSlice(b: seq<byte>, pos: nat, end: nat, i: nat, j: nat)
    requires pos <= end <= |b| && i <= j <= end - pos
    ensures b[pos..end][i..j] == b[pos + i..pos + j]
  {
    var here := b[pos..end];
    assert forall k :: i <= k < j ==> here[k] == b[pos + k];
    forall k | 0 <= k < j - i ensures here[i..j][k] == b[pos + i..pos + j][k] {
      assert here[i..j][k] == here[i + k];
    }
  }

  /** Items said without recursion into the head. */
  lemma ItemsUnfold(f: Format, b: seq<byte>)
    ensures Items(f, b)
         == if |b| < HeadSize(f) || HeadSize(f) + HeadOf(f, b).1 > |b| then []
            else [Item(HeadOf(f, b).0, b[HeadSize(f)..HeadSize(f) + HeadOf(f, b).1])]
                 + Items(f, b[HeadSize(f) + HeadOf(f, b).1..])
  {
  }

  lemma HeadIsSmall(f: Format, b: seq<byte>)
    requires |b| >= HeadSize(f)
    ensures var (kind, len) := HeadOf(f, b);
            forall data: seq<byte> :: |data| == len ==> Fits(f, Item(kind, data))
  {
  }

  /** The head of an item is read from its first bytes alone. */
  lemma HeadIsLocal(f: Format, b: seq<byte>)
    requires |b| >= HeadSize(f)
    ensures HeadOf(f, b) == HeadOf(f, b[..HeadSize(f)])
  {
    var head := b[..HeadSize(f)];
    if f == Extensions {
      assert head[..2] == b[..2] && head[2..4] == b[2..4];
    } else if f == ServerNames {
      assert head[1..3] == b[1..3];
    }
  }

  // ---- What the two extractors look for ----

  /** The region of a length-prefixed list inside extension data, cut to the data. */
  function ListRegion(data: seq<byte>): seq<byte>
    requires |data| >= 2
  {
    data[2..Min(2 + FromBe16(data[..2]), |data|)]
  }

  type Utf8 = seq<byte> -> bool

  predicate Usable(utf8: Utf8, name: Item) {
    name.kind == 0 && name.data != [] && utf8(name.data)
  }

  /** The first usable name of a list; both directions. */
  function FirstUsable(utf8: Utf8, names: seq<Item>): (r: Option<seq<byte>>)
    ensures r.None? <==> forall i :: 0 <= i < |names| ==> !Usable(utf8, names[i])
    ensures r.Some? ==> exists i :: 0 <= i < |names| && Usable(utf8, names[i]) && names[i].data == r.value
                                 && forall j :: 0 <= j < i ==> !Usable(utf8, names[j])
  {
    if names == [] then None
    else if Usable(utf8, names[0]) then Some(names[0].data)
    else
      var rest := names[1..];
      var r := FirstUsable(utf8, rest);
      assert forall i :: 1 <= i < |names| ==> names[i] == rest[i - 1];
      r
  }

  lemma {:induction false} FirstUsableAppend(utf8: Utf8, a: seq<Item>, b: seq<Item>)
    ensures FirstUsable(utf8, a + b)
         == if FirstUsable(utf8, a).Some? then FirstUsable(utf8, a) else FirstUsable(utf8, b)
  {
    if a == [] {
      assert a + b == b;
    } else {
      assert (a + b)[1..] == a[1..] + b;
      FirstUsableAppend(utf8, a[1..], b);
    }
  }

  /** The names one extension carries: none unless it is server_name. */
  function NamesIn(e: Item): seq<Item> {
    if e.kind == 0 && |e.data| >= 2 then Items(ServerNames, ListRegion(e.data)) else []
  }

  /** All server names of an extension list, in order. */
  function AllNames(exts: seq<Item>): seq<Item> {
    if exts == [] then [] else NamesIn(exts[0]) + AllNames(exts[1..])
  }

  lemma NamesCons(e: Item, rest: seq<Item>)
    ensures AllNames([e] + rest) == NamesIn(e) + AllNames(rest)
  {
    assert ([e] + rest)[1..] == rest;
  }

  /** An extension the code is too short to look into holds no name at all. */
  lemma ShortHoldsNoName(e: Item)
    requires |e.data| < 5
    ensures NamesIn(e) == []
  {
  }

  /** The protocol names of the first ALPN extension with room for one, in the order offered. */
  function OfferedProtocols(exts: seq<Item>): seq<seq<byte>> {
    if exts == [] then []
    else if exts[0].kind == 0x10 && |exts[0].data| >= 3 then Datas(Items(Protocols, ListRegion(exts[0].data)))
    else OfferedProtocols(exts[1..])
  }

  lemma OfferedCons(e: Item, rest: seq<Item>)
    ensures OfferedProtocols([e] + rest)
         == if e.kind == 0x10 && |e.data| >= 3 then Datas(Items(Protocols, ListRegion(e.data)))
            else OfferedProtocols(rest)
  {
    assert ([e] + rest)[1..] == rest;
  }

  function Datas(items: seq<Item>): seq<seq<byte>> {
    if items == [] then [] else [items[0].data] + Datas(items[1..])
  }

  lemma DatasCons(e: Item, rest: seq<Item>)
    ensures Datas([e] + rest) == [e.data] + Datas(rest)
  {
    assert ([e] + rest)[1..] == rest;
  }

  // ---- The walks ----

  /** Where the extensions of a ClientHello lie; every index is checked before it is used. */
  function ExtensionRange(h: seq<byte>): (r: Option<(nat, nat)>)
    ensures r.Some? ==> r.value.0 <= r.value.1 <= |h|
  {
    if |h| < 44 || h[5] != 1 then None
    else
      var sid: int := h[43];
      var p1 := 44 + sid;
      if p1 + 2 > |h| then None
      else
        var p2 := p1 + 2 + FromBe16(h[p1..p1 + 2]);
        if p2 >= |h| then None
        else
          var comp: int := h[p2];
          var p3 := p2 + 1 + comp;
          if p3 + 2 > |h| then None
          else
            var end := p3 + 2 + FromBe16(h[p3..p3 + 2]);
            if end > |h| then None else Some((p3 + 2, end))
  }

  /** The extensions of a ClientHello. */
  function ExtensionsOf(h: seq<byte>): Option<seq<Item>> {
    var r := ExtensionRange(h);
    if r.None? then None else Some(Items(Extensions, h[r.value.0..r.value.1]))
  }

  method SkipToExtensions(h: seq<byte>) returns (r: Option<(nat, nat)>)
    ensures r == ExtensionRange(h)
  {
    var pos: nat := 5;
    if pos >= |h| || h[pos] != 1 {
      return None;
    }
    pos := pos + 4;
    pos := pos + 2 + 32;
    if pos >= |h| {
      return None;
    }
    var sessionLen: nat := h[pos];
    pos := pos + 1 + sessionLen;
    if pos + 2 > |h| {
      return None;
    }
    pos := pos + 2 + FromBe16(h[pos..pos + 2]);
    if pos >= |h| {
      return None;
    }
    var compLen: nat := h[pos];
    pos := pos + 1 + compLen;
    if pos + 2 > |h| {
      return None;
    }
    var end := pos + 2 + FromBe16(h[pos..pos + 2]);
    if end > |h| {
      return None;
    }
    r := Some((pos + 2, end));
  }

  /** Total on every byte string; the first usable host name of the hello's extensions. */
  method ExtractSni(utf8: Utf8, h: seq<byte>) returns (r: Option<seq<byte>>)
    ensures r == if |h| < 43 || h[0] != 0x16 || ExtensionsOf(h).None? then None
                 else FirstUsable(utf8, AllNames(ExtensionsOf(h).value))
  {
    hide Items, AllNames, FirstUsable, FromBe16, ExtensionRange, NamesIn, ListRegion;
    if |h| < 43 || h[0] != 0x16 {
      return None;
    }
    var range := SkipToExtensions(h);
    if range.None? {
      return None;
    }
    var (pos, end) := range.value;
    ghost var exts := Items(Extensions, h[pos..end]);
    assert ExtensionsOf(h) == Some(exts);
    while true
      invariant pos <= end <= |h|
      invariant FirstUsable(utf8, AllNames(Items(Extensions, h[pos..end]))) == FirstUsable(utf8, AllNames(exts))
      decreases end - pos
    {
      var ext, next := NextItem(Extensions, h, pos, end);
      if ext.None? {
        NoNames(utf8);
        return None;
      }
      ghost var rest := Items(Extensions, h[next..end]);
      NamesCons(ext.value, rest);
      FirstUsableAppend(utf8, NamesIn(ext.value), AllNames(rest));
      if ext.value.kind == 0 && |ext.value.data| >= 5 {
        r := WalkNames(utf8, ext.value.data);
        NamesOfServerName(ext.value);
        if r.Some? {
          return;
        }
      } else {
        NotLookedInto(utf8, ext.value);
      }
      pos := next;
    }
  }

  lemma NoNames(utf8: Utf8)
    ensures FirstUsable(utf8, AllNames([])) == None
  {
  }

  lemma NamesOfServerName(e: Item)
    requires e.kind == 0 && |e.data| >= 5
    ensures NamesIn(e) == Items(ServerNames, ListRegion(e.data))
  {
  }

  lemma NotLookedInto(utf8: Utf8, e: Item)
    requires e.kind != 0 || |e.data| < 5
    ensures FirstUsable(utf8, NamesIn(e)) == None
  {
    if |e.data| < 5 {
      ShortHoldsNoName(e);
    }
  }

  /** The inner walk over one server_name extension. */
  method WalkNames(utf8: Utf8, data: seq<byte>) returns (r: Option<seq<byte>>)
    requires |data| >= 5
    ensures r == FirstUsable(utf8, Items(ServerNames, ListRegion(data)))
  {
    ghost var names := Items(ServerNames, ListRegion(data));
    var end: nat := Min(2 + FromBe16(data[..2]), |data|);
    var pos := 2;
    assert ListRegion(data) == data[2..end];
    hide Items, FromBe16, ListRegion;
    while true
      invariant 2 <= pos <= end <= |data|
      invariant FirstUsable(utf8, Items(ServerNames, data[pos..end])) == FirstUsable(utf8, names)
      decreases end - pos
    {
      var name, next := NextItem(ServerNames, data, pos, end);
      if name.None? {
        return None;
      }
      FirstUsableAppend(utf8, [name.value], Items(ServerNames, data[next..end]));
      if name.value.kind == 0 && name.value.data != [] && utf8(name.value.data) {
        return Some(name.value.data);
      }
      pos := next;
    }
  }

  /** Total on every byte string; the protocols of the first ALPN extension, in order. */
  method ExtractAlpn(h: seq<byte>) returns (r: seq<seq<byte>>)
    ensures r == if ExtensionsOf(h).None? then [] else OfferedProtocols(ExtensionsOf(h).value)
  {
    assert OfferedProtocols([]) == [];
    hide Items, OfferedProtocols, FromBe16, ExtensionRange, ListRegion, Datas;
    var range := SkipToExtensions(h);
    if range.None? {
      return [];
    }
    var (pos, end) := range.value;
    ghost var exts := Items(Extensions, h[pos..end]);
    assert ExtensionsOf(h) == Some(exts);
    while true
      invariant pos <= end <= |h|
      invariant OfferedProtocols(Items(Extensions, h[pos..end])) == OfferedProtocols(exts)
      decreases end - pos
    {
      var ext, next := NextItem(Extensions, h, pos, end);
      if ext.None? {
        return [];
      }
      OfferedCons(ext.value, Items(Extensions, h[next..end]));
      if ext.value.kind == 0x10 && |ext.value.data| >= 3 {
        r := WalkProtocols(ext.value.data);
        return;
      }
      pos := next;
    }
  }

  method WalkProtocols(data: seq<byte>) returns (r: seq<seq<byte>>)
    requires |data| >= 3
    ensures r == Datas(Items(Protocols, ListRegion(data)))
  {
    ghost var names := Items(Protocols, ListRegion(data));
    var end: nat := Min(2 + FromBe16(data[..2]), |data|);
    var pos := 2;
    assert ListRegion(data) == data[2..end];
    assert Datas([]) == [];
    hide Items, FromBe16, ListRegion, Datas;
    r := [];
    while true
      invariant 2 <= pos <= end <= |data|
      invariant r + Datas(Items(Protocols, data[pos..end])) == Datas(names)
      decreases end - pos
    {
      var name, next := NextItem(Protocols, data, pos, end);
      if name.None? {
        return;
      }
      DatasCons(name.value, Items(Protocols, data[next..end]));
      r := r + [name.value.data];
      pos := next;
    }
  }

  // ---- Well-formed hellos ----

  /** Section 4.1.2 of RFC 8446; `frame` is the record header, type, length and version. */
  datatype ClientHello = ClientHello(
    frame: seq<byte>, random: seq<byte>, session: seq<byte>,
    suites: seq<byte>, compression: seq<byte>, exts: seq<Item>)
  {
    predicate WellFormed() {
      && |frame| == 11 && frame[0] == 0x16 && frame[5] == 1
      && |random| == 32 && |session| < 0x100
      && |suites| < 0x1_0000 && |compression| < 0x100
      && AllFit(Extensions, exts) && |ListBytes(Extensions, exts)| < 0x1_0000
    }

    function Encode(): seq<byte>
      requires WellFormed()
    {
      var list := ListBytes(Extensions, exts);
      frame + random + [|session|] + session + (Be16(|suites|) + suites)
      + ([|compression|] + compression) + (Be16(|list|) + list)
    }
  }

  /** The high byte comes first. */
  lemma Be16Order(n: nat)
    requires n < 0x1_0000
    ensures var high: int, low: int := Be16(n)[0], Be16(n)[1]; 256 * high + low == n
  {
  }

  lemma Be16RoundTrip(n: nat)
    requires n < 0x1_0000
    ensures FromBe16(Be16(n)) == n
  {
  }

  lemma Low16Keeps(n: nat)
    ensures FromBe16(Low16(n)) == n % 0x1_0000
  {
    Be16RoundTrip(n % 0x1_0000);
  }

  /** A hello's bytes up to its extensions, these with their length field, which keeps sixteen bits. */
  function HelloBytes(frame: seq<byte>, random: seq<byte>, session: seq<byte>, suites: seq<byte>,
                      compression: seq<byte>, list: seq<byte>): seq<byte>
    requires |session| < 0x100 && |suites| < 0x1_0000 && |compression| < 0x100
  {
    frame + random + [|session|] + session + (Be16(|suites|) + suites)
    + ([|compression|] + compression) + (Low16(|list|) + list)
  }

  /** The walk finds the list, cut to what its length field can say. */
  lemma HelloRange(frame: seq<byte>, random: seq<byte>, session: seq<byte>, suites: seq<byte>,
                   compression: seq<byte>, list: seq<byte>, tail: seq<byte>)
    requires |frame| == 11 && frame[0] == 0x16 && frame[5] == 1 && |random| == 32
    requires |session| < 0x100 && |suites| < 0x1_0000 && |compression| < 0x100
    ensures var h := HelloBytes(frame, random, session, suites, compression, list) + tail;
            && |h| >= 44 && h[0] == 0x16
            && var r := ExtensionRange(h);
               r.Some? && h[r.value.0..r.value.1] == list[..|list| % 0x1_0000]
  {
    hide Be16, FromBe16, Low16;
    var h := HelloBytes(frame, random, session, suites, compression, list) + tail;
    var p1 := 44 + |session|;
    var p2 := p1 + 2 + |suites|;
    var p3 := p2 + 1 + |compression|;
    var whole, said := p3 + 2 + |list|, p3 + 2 + |list| % 0x1_0000;
    assert |h| == whole + |tail|;
    assert h[0] == frame[0] && h[5] == frame[5] && h[43] == |session|;
    assert h[p1..p1 + 2] == Be16(|suites|);
    assert h[p2] == |compression|;
    assert h[p3..p3 + 2] == Low16(|list|);
    assert h[p3 + 2..whole] == list;
    Be16RoundTrip(|suites|);
    Low16Keeps(|list|);
    assert ExtensionRange(h) == Some((p3 + 2, said));
    SubSlice(h, p3 + 2, whole, 0, |list| % 0x1_0000);
  }

  /** The walk finds exactly the extension list of a well-formed hello, whatever follows it. */
  lemma HelloExtensions(c: ClientHello, tail: seq<byte>)
    requires c.WellFormed()
    ensures var h := c.Encode() + tail;
            |h| >= 44 && h[0] == 0x16 && ExtensionsOf(h) == Some(c.exts)
  {
    hide Items, ListBytes, Be16, FromBe16, ExtensionRange;
    var list := ListBytes(Extensions, c.exts);
    assert c.Encode() == HelloBytes(c.frame, c.random, c.session, c.suites, c.compression, list);
    HelloRange(c.frame, c.random, c.session, c.suites, c.compression, list, tail);
    assert list[..|list|] == list;
    ItemsOfList(Extensions, c.exts);
  }

  /** An extension holding one length-prefixed list. */
  function ListExtension(kind: nat, f: Format, items: seq<Item>): Item
    requires AllFit(f, items) && |ListBytes(f, items)| < 0xfffe
  {
    Item(kind, Be16(|ListBytes(f, items)|) + ListBytes(f, items))
  }

  lemma ListExtensionHolds(kind: nat, f: Format, items: seq<Item>)
    requires AllFit(f, items) && |ListBytes(f, items)| < 0xfffe
    ensures Items(f, ListRegion(ListExtension(kind, f, items).data)) == items
  {
    hide Items, ListBytes, Be16, FromBe16;
    var list := ListBytes(f, items);
    var data := ListExtension(kind, f, items).data;
    assert data[..2] == Be16(|list|);
    Be16RoundTrip(|list|);
    assert ListRegion(data) == data[2..2 + |list|] == list;
    ItemsOfList(f, items);
  }

  /** On a well-formed hello whose only name list is `names`, those are the names the extractor
      chooses from, wherever the extension stands. */
  lemma NamesOfWellFormed(c: ClientHello, tail: seq<byte>,
                          before: seq<Item>, names: seq<Item>, after: seq<Item>)
    requires c.WellFormed() && AllFit(ServerNames, names) && |ListBytes(ServerNames, names)| < 0xfffe
    requires c.exts == before + [ListExtension(0, ServerNames, names)] + after
    requires forall e :: e in before + after ==> e.kind != 0
    ensures var h := c.Encode() + tail;
            |h| >= 44 && h[0] == 0x16 && ExtensionsOf(h).Some? && AllNames(ExtensionsOf(h).value) == names
  {
    hide ExtensionsOf, ListBytes, AllNames;
    HelloExtensions(c, tail);
    OnlyNames(before, names, after);
  }

  lemma OnlyNames(before: seq<Item>, names: seq<Item>, after: seq<Item>)
    requires AllFit(ServerNames, names) && |ListBytes(ServerNames, names)| < 0xfffe
    requires forall e :: e in before + after ==> e.kind != 0
    ensures AllNames(before + [ListExtension(0, ServerNames, names)] + after) == names
  {
    hide AllNames, Items, ListRegion, ListBytes;
    var e := ListExtension(0, ServerNames, names);
    assert before + [e] + after == before + ([e] + after);
    forall x | x in before ensures x.kind != 0 {
      assert x in before + after;
    }
    forall x | x in after ensures x.kind != 0 {
      assert x in before + after;
    }
    OtherKindsHoldNoName(before, [e] + after);
    OtherKindsHoldNoName(after, []);
    assert after + [] == after;
    NamesCons(e, after);
    ListExtensionHolds(0, ServerNames, names);
    NoName();
    assert names + [] == names;
  }

  lemma NoName()
    ensures AllNames([]) == []
  {
  }

  lemma {:induction false} OtherKindsHoldNoName(a: seq<Item>, b: seq<Item>)
    requires forall e :: e in a ==> e.kind != 0
    ensures AllNames(a + b) == AllNames(b)
  {
    if a == [] {
      assert a + b == b;
    } else {
      assert a + b == [a[0]] + (a[1..] + b);
      NamesCons(a[0], a[1..] + b);
      OtherKindsHoldNoName(a[1..], b);
    }
  }

  /** On a well-formed hello the extractor's result is the offered list, in order. */
  lemma ProtocolsOfWellFormed(c: ClientHello, tail: seq<byte>,
                              before: seq<Item>, names: seq<Item>, after: seq<Item>)
    requires c.WellFormed() && names != [] && AllFit(Protocols, names) && |ListBytes(Protocols, names)| < 0xfffe
    requires c.exts == before + [ListExtension(0x10, Protocols, names)] + after
    requires forall e :: e in before ==> e.kind != 0x10
    ensures var h := c.Encode() + tail;
            ExtensionsOf(h).Some? && OfferedProtocols(ExtensionsOf(h).value) == Datas(names)
  {
    hide ExtensionsOf, ListBytes, OfferedProtocols, Datas;
    HelloExtensions(c, tail);
    FirstOffer(before, names, after);
  }

  lemma FirstOffer(before: seq<Item>, names: seq<Item>, after: seq<Item>)
    requires names != [] && AllFit(Protocols, names) && |ListBytes(Protocols, names)| < 0xfffe
    requires forall e :: e in before ==> e.kind != 0x10
    ensures OfferedProtocols(before + [ListExtension(0x10, Protocols, names)] + after) == Datas(names)
  {
    assert |ListBytes(Protocols, names)| >= 1;
    hide OfferedProtocols, Items, ListRegion, ListBytes, Datas;
    var e := ListExtension(0x10, Protocols, names);
    assert before + [e] + after == before + ([e] + after);
    OtherKindsOfferNothing(before, [e] + after);
    OfferedCons(e, after);
    ListExtensionHolds(0x10, Protocols, names);
  }

  lemma {:induction false} OtherKindsOfferNothing(a: seq<Item>, b: seq<Item>)
    requires forall e :: e in a ==> e.kind != 0x10
    ensures OfferedProtocols(a + b) == OfferedProtocols(b)
  {
    if a == [] {
      assert a + b == b;
    } else {
      assert a + b == [a[0]] + (a[1..] + b);
      OfferedCons(a[0], a[1..] + b);
      OtherKindsOfferNothing(a[1..], b);
    }
  }

  // ---- Bounds ----

  /** No item is longer than the list it was read from. */
  lemma {:induction false} ItemsWithin(f: Format, b: seq<byte>)
    ensures forall it :: it in Items(f, b) ==> |it.data| <= |b| && |it.data| < 0x1_0000
    decreases |b|
  {
    hide FromBe16;
    if |b| >= HeadSize(f) && HeadSize(f) + HeadOf(f, b).1 <= |b| {
      ItemsWithin(f, b[HeadSize(f) + HeadOf(f, b).1..]);
    }
  }

  lemma {:induction false} NamesWithin(exts: seq<Item>, limit: nat)
    requires forall e :: e in exts ==> |e.data| <= limit
    ensures forall n :: n in AllNames(exts) ==> |n.data| <= limit
  {
    hide Items;
    if exts != [] {
      if |exts[0].data| >= 2 {
        ItemsWithin(ServerNames, ListRegion(exts[0].data));
      }
      NamesWithin(exts[1..], limit);
    }
  }

  /** A name the extractor returns fits into the extensions, and into sixteen bits of length. */
  lemma SniWithin(utf8: Utf8, region: seq<byte>)
    ensures var r := FirstUsable(utf8, AllNames(Items(Extensions, region)));
            r.Some? ==> |r.value| <= |region| && |r.value| < 0x1_0000
  {
    hide Items, AllNames, Usable;
    ItemsWithin(Extensions, region);
    NamesWithin(Items(Extensions, region), Min(|region|, 0xffff));
  }
}
