/** The item stream of the ventilation protocol: the request payload that asks for a list of item
    addresses, and the page/size state machine that decodes a reply payload into
    `address -> raw bytes`. */
module ItemStream {
  import opened Bytes
  import opened Wrappers
  import opened VentsWire

  const CmdPage: Byte := 0xFF
  const CmdFunction: Byte := 0xFC  // declared by the client but given no meaning in the stream
  const CmdSize: Byte := 0xFE
  const CmdNotSupported: Byte := 0xFD
  const FunctionRead: Byte := 0x01
  const FunctionReadWrite: Byte := 0x03

  type Items = map<nat, seq<Byte>>

  /** `page << 8 | next` */
  function Address(page: Byte, low: Byte): nat
  {
    page * 256 + low
  }

  // ---------------------------------------------------------------------------------------------
  // Reply side

  /** The decoding `ParseItems` performs, from parser state (`page`, `size`) and the items recorded so
      far. The buffer still carries the frame's two checksum bytes, so decoding stops once at most two
      bytes remain. A page directive is sticky; a size directive applies to the next data item only;
      a not-supported marker skips one byte and leaves a pending size in place. */
  function ParseFrom(buffer: seq<Byte>, page: Byte, size: Byte, items: Items): Result<Items, Error>
    decreases |buffer|
  {
    if |buffer| <= 2 then Ok(items)
    else
      var next := buffer[0];
      var rest := buffer[1..];
      if next == CmdPage then ParseFrom(rest[1..], rest[0], size, items)
      else if next == CmdSize then ParseFrom(rest[1..], page, rest[0], items)
      else if next == CmdNotSupported then ParseFrom(rest[1..], page, size, items)
      else if size > |rest| then Err(OutOfRange)
      else ParseFrom(rest[size..], page, 1, items[Address(page, next) := rest[..size]])
  }

  /** `ParseItems`: a `while (buffer.Length > 2)` loop over a span, with `page` and `size` locals and a
      dictionary filled in place. */
  method ParseItems(buffer: seq<Byte>) returns (r: Result<Items, Error>)
    ensures r == ParseFrom(buffer, 0, 1, map[])
  {
    var result: Items := map[];
    var page: Byte := 0;
    var size: Byte := 1;
    var buf := buffer;
    while |buf| > 2
      invariant ParseFrom(buf, page, size, result) == ParseFrom(buffer, 0, 1, map[])
      decreases |buf|
    {
      var next := buf[0];
      buf := buf[1..];
      if next == CmdPage {
        page := buf[0];
        buf := buf[1..];
      } else if next == CmdSize {
        size := buf[0];
        buf := buf[1..];
      } else if next == CmdNotSupported {
        buf := buf[1..];  // skip the not supported address
      } else {
        if size > |buf| {
          return Err(OutOfRange);
        }
        var data := buf[..size];
        buf := buf[size..];
        result := result[Address(page, next) := data];
        size := 1;
      }
    }
    return Ok(result);
  }

  /** One entry of a reply's item list, as a device would describe it. */
  datatype Entry = Item(address: nat, data: seq<Byte>) | Unsupported(low: Byte)

  /** An entry a stream can carry unambiguously: a 16-bit address whose low byte is not one of the
      three control bytes, and a value of at most 255 bytes. */
  predicate Encodable(e: Entry)
  {
    match e
    case Item(a, d) => a < 65536 && a % 256 < CmdNotSupported && |d| < 256
    case Unsupported(_) => true
  }

  /** The page a stream is on after an entry: an item moves it to the item's page. */
  function PageAfter(e: Entry, page: Byte): Byte
    requires Encodable(e)
  {
    if e.Item? then e.address / 256 else page
  }

  /** How a device lays out one entry: a page directive only when the page changes, a size directive
      only before a value that is not one byte wide, `FD low` for an unsupported address. */
  function EntryBytes(e: Entry, page: Byte): seq<Byte>
    requires Encodable(e)
  {
    match e
    case Item(a, d) =>
      var p := PageAfter(e, page);
      (if p != page then [CmdPage, p] else []) + SizePrefix(d) + [a % 256] + d
    case Unsupported(x) => [CmdNotSupported, x]
  }

  function EncodeFrom(es: seq<Entry>, page: Byte): seq<Byte>
    requires forall i :: 0 <= i < |es| ==> Encodable(es[i])
  {
    if es == [] then [] else EntryBytes(es[0], page) + EncodeFrom(es[1..], PageAfter(es[0], page))
  }

  /** What one entry contributes to the dictionary: an item overwrites its address, an unsupported
      entry records nothing. */
  function Record(e: Entry, items: Items): Items
  {
    if e.Item? then items[e.address := e.data] else items
  }

  /** The dictionary an entry list denotes: later entries for the same address overwrite earlier ones. */
  function Collect(es: seq<Entry>, items: Items): Items
  {
    if es == [] then items else Collect(es[1..], Record(es[0], items))
  }

  /** Decoding an encoded item list followed by the two checksum bytes yields exactly the dictionary
      the list denotes: the page persists across items, the size resets after each value, and the
      trailing checksum is never taken for an item. */
  lemma {:induction false} ParseEncoded(es: seq<Entry>, page: Byte, items: Items, tail: seq<Byte>)
    requires forall i :: 0 <= i < |es| ==> Encodable(es[i])
    requires |tail| == 2
    ensures ParseFrom(EncodeFrom(es, page) + tail, page, 1, items) == Ok(Collect(es, items))
  {
    if es == [] {
      assert EncodeFrom(es, page) + tail == tail;
    } else {
      var next := PageAfter(es[0], page);
      var later := EncodeFrom(es[1..], next) + tail;
      assert EncodeFrom(es, page) + tail == EntryBytes(es[0], page) + later;
      ParseEntry(es[0], page, later, items);
      ParseEncoded(es[1..], next, Record(es[0], items), tail);
    }
  }

  /** One entry followed by at least two more bytes is consumed exactly, leaving size 1. */
  lemma ParseEntry(e: Entry, page: Byte, later: seq<Byte>, items: Items)
    requires Encodable(e) && |later| >= 2
    ensures ParseFrom(EntryBytes(e, page) + later, page, 1, items)
         == ParseFrom(later, PageAfter(e, page), 1, Record(e, items))
  {
    match e
    case Unsupported(x) => {
      ParseDirective(CmdNotSupported, x, later, page, 1, items);
    }
    case Item(a, d) => {
      ParseItemEntry(a, d, page, later, items);
    }
  }

  /** A data item is preceded by a page directive exactly when its page differs from the current
      one; either way the parse lands on the item's page with the item recorded. */
  lemma ParseItemEntry(a: nat, d: seq<Byte>, page: Byte, later: seq<Byte>, items: Items)
    requires Encodable(Item(a, d)) && |later| >= 2
    ensures ParseFrom(EntryBytes(Item(a, d), page) + later, page, 1, items)
         == ParseFrom(later, a / 256, 1, items[a := d])
  {
    var sized := SizePrefix(d) + [a % 256] + d + later;
    if a / 256 != page {
      ParseAfterPageDirective(a, d, page, later, items);
    } else {
      assert EntryBytes(Item(a, d), page) + later == sized;
      ParseAddressedItem(a, d, later, items);
    }
  }

  /** An item on a new page: the page directive, then the item under that page. */
  lemma ParseAfterPageDirective(a: nat, d: seq<Byte>, page: Byte, later: seq<Byte>, items: Items)
    requires Encodable(Item(a, d)) && |later| >= 2 && a / 256 != page
    ensures ParseFrom(EntryBytes(Item(a, d), page) + later, page, 1, items)
         == ParseFrom(later, a / 256, 1, items[a := d])
  {
    var p: Byte := a / 256;
    var sized := SizePrefix(d) + [a % 256] + d + later;
    assert EntryBytes(Item(a, d), page) + later == [CmdPage, p] + sized;
    ParseDirective(CmdPage, p, sized, page, 1, items);
    ParseAddressedItem(a, d, later, items);
  }

  /** An item written under its own page is recorded at its full 16-bit address. */
  lemma ParseAddressedItem(a: nat, d: seq<Byte>, later: seq<Byte>, items: Items)
    requires a < 65536 && a % 256 < CmdNotSupported && |d| < 256 && |later| >= 2
    ensures ParseFrom(SizePrefix(d) + [a % 256] + d + later, a / 256, 1, items)
         == ParseFrom(later, a / 256, 1, items[a := d])
  {
    ParseSizedItem(a / 256, a % 256, d, later, items);
    assert Address(a / 256, a % 256) == a;
  }

  function SizePrefix(d: seq<Byte>): seq<Byte>
    requires |d| < 256
  {
    if |d| != 1 then [CmdSize, |d|] else []
  }

  /** A data item behind its optional size directive is recorded with exactly its own width. */
  lemma ParseSizedItem(p: Byte, low: Byte, d: seq<Byte>, later: seq<Byte>, items: Items)
    requires low < CmdNotSupported && |d| < 256 && |later| >= 2
    ensures ParseFrom(SizePrefix(d) + [low] + d + later, p, 1, items)
         == ParseFrom(later, p, 1, items[Address(p, low) := d])
  {
    var itemBytes := [low] + d + later;
    ParseItemAt(p, low, d, later, items);
    if |d| != 1 {
      ParseDirective(CmdSize, |d|, itemBytes, p, 1, items);
      assert SizePrefix(d) + [low] + d + later == [CmdSize, |d|] + itemBytes;
    } else {
      assert SizePrefix(d) + [low] + d + later == itemBytes;
    }
  }

  /** A two-byte directive followed by at least one more byte updates the parser state and nothing
      else. */
  lemma ParseDirective(cmd: Byte, arg: Byte, rest: seq<Byte>, page: Byte, size: Byte, items: Items)
    requires cmd in {CmdPage, CmdSize, CmdNotSupported} && |rest| >= 1
    ensures ParseFrom([cmd, arg] + rest, page, size, items)
         == if cmd == CmdPage then ParseFrom(rest, arg, size, items)
            else if cmd == CmdSize then ParseFrom(rest, page, arg, items)
            else ParseFrom(rest, page, size, items)
  {
    assert ([cmd, arg] + rest)[1..][1..] == rest;
  }

  /** One data item: its address byte, exactly `|d|` value bytes, and the parse goes on with size 1. */
  lemma ParseItemAt(page: Byte, low: Byte, d: seq<Byte>, later: seq<Byte>, items: Items)
    requires low < CmdNotSupported && |d| < 256 && |later| >= 2
    ensures ParseFrom([low] + d + later, page, |d|, items)
         == ParseFrom(later, page, 1, items[Address(page, low) := d])
  {
    var b := [low] + d + later;
    assert b[1..] == d + later;
    assert b[1..][..|d|] == d;
    assert b[1..][|d|..] == later;
  }

  /** The stream of the three-item example: a size directive does not leak into the following item. */
  lemma SizeAppliesToOneItem()
    ensures ParseFrom([0x01, 0x05, 0xFE, 0x02, 0x02, 0x01, 0x02, 0x03, 0x07, 0xAA, 0xBB], 0, 1, map[])
         == Ok(map[1 := [0x05], 2 := [0x01, 0x02], 3 := [0x07]])
  {
    var full := [0x01, 0x05, 0xFE, 0x02, 0x02, 0x01, 0x02, 0x03, 0x07, 0xAA, 0xBB];
    var m1: Items := map[1 := [0x05]];
    var m2 := m1[2 := [0x01, 0x02]];
    var r3 := [0x03, 0x07, 0xAA, 0xBB];
    var r2 := [0x02, 0x01, 0x02] + r3;
    var r1 := [0xFE, 0x02] + r2;
    calc {
      ParseFrom(full, 0, 1, map[]);
      { assert full == [0x01] + [0x05] + r1; ParseItemAt(0, 0x01, [0x05], r1, map[]); }
      ParseFrom(r1, 0, 1, m1);
      { ParseDirective(CmdSize, 0x02, r2, 0, 1, m1); }
      ParseFrom(r2, 0, 2, m1);
      { assert r2 == [0x02] + [0x01, 0x02] + r3; ParseItemAt(0, 0x02, [0x01, 0x02], r3, m1); }
      ParseFrom(r3, 0, 1, m2);
      { assert r3 == [0x03] + [0x07] + [0xAA, 0xBB]; ParseItemAt(0, 0x03, [0x07], [0xAA, 0xBB], m2); }
      ParseFrom([0xAA, 0xBB], 0, 1, m2[3 := [0x07]]);
      Ok(m2[3 := [0x07]]);
      { assert m2[3 := [0x07]] == map[1 := [0x05], 2 := [0x01, 0x02], 3 := [0x07]]; }
      Ok(map[1 := [0x05], 2 := [0x01, 0x02], 3 := [0x07]]);
    }
  }

  /** A not-supported entry records nothing and does not reset a size directive given before it. */
  lemma NotSupportedKeepsPendingSize(x: Byte, low: Byte, v0: Byte, v1: Byte, c0: Byte, c1: Byte)
    requires low < CmdNotSupported
    ensures ParseFrom([CmdSize, 2, CmdNotSupported, x, low, v0, v1, c0, c1], 0, 1, map[])
         == Ok(map[low := [v0, v1]])
  {
    var s := [CmdSize, 2, CmdNotSupported, x, low, v0, v1, c0, c1];
    assert s[1..][1..] == [CmdNotSupported, x, low, v0, v1, c0, c1];
    assert s[1..][1..][1..][1..] == [low] + [v0, v1] + [c0, c1];
    ParseItemAt(0, low, [v0, v1], [c0, c1], map[]);
  }

  /** An item that claims more bytes than the buffer holds is an error, not a short value. */
  lemma OversizedItemFails(low: Byte, v0: Byte, c0: Byte)
    requires low < CmdNotSupported
    ensures ParseFrom([CmdSize, 4, low, v0, c0], 0, 1, map[]).Err?
  {
    var s := [CmdSize, 4, low, v0, c0];
    assert s[1..][1..] == [low, v0, c0];
  }

  // ---------------------------------------------------------------------------------------------
  // Request side

  /** The read request body after the function byte: for each address in caller order, `FF page` when
      its page (`(byte)(addr >> 8)`) differs from the previous one, then its low byte. */
  function RequestFrom(addresses: seq<nat>, page: Byte): seq<Byte>
  {
    if addresses == [] then []
    else
      var a := addresses[0];
      var p: Byte := (a / 256) % 256;
      (if p != page then [CmdPage, p] else []) + [a % 256] + RequestFrom(addresses[1..], p)
  }

  function ReadRequest(addresses: seq<nat>): seq<Byte>
  {
    [FunctionRead] + RequestFrom(addresses, 0)
  }

  /** The payload loop of `ReadAddresses`: a `List<byte>` appended to with a mutable `page`. */
  method ReadAddressesPayload(addresses: seq<nat>) returns (command: seq<Byte>)
    ensures command == ReadRequest(addresses)
  {
    command := [FunctionRead];
    var page: Byte := 0;
    var i := 0;
    while i < |addresses|
      invariant 0 <= i <= |addresses|
      invariant command + RequestFrom(addresses[i..], page) == ReadRequest(addresses)
    {
      var addr := addresses[i];
      var thispage: Byte := (addr / 256) % 256;
      ghost var directive: seq<Byte> := if thispage != page then [CmdPage, thispage] else [];
      ghost var before := command;
      RequestStep(addresses, i, page);
      if thispage != page {
        command := command + [CmdPage, thispage];
        page := thispage;
      }
      command := command + [addr % 256];
      assert command == before + directive + [addr % 256];
      AppendAssociates(before, directive, [addr % 256], RequestFrom(addresses[i + 1..], page));
      i := i + 1;
    }
  }

  lemma AppendAssociates(a: seq<Byte>, b: seq<Byte>, c: seq<Byte>, d: seq<Byte>)
    ensures a + b + c + d == a + (b + (c + d))
  {
  }

  /** One address of the loop: its optional page directive and low byte, then the rest on its page. */
  lemma RequestStep(addresses: seq<nat>, i: nat, page: Byte)
    requires i < |addresses|
    ensures var p: Byte := (addresses[i] / 256) % 256;
      RequestFrom(addresses[i..], page)
      == (if p != page then [CmdPage, p] else []) + ([addresses[i] % 256] + RequestFrom(addresses[i + 1..], p))
  {
    assert addresses[i..][1..] == addresses[i + 1..];
  }

  /** How the device reads a request body back: `FF` switches the current page, any other byte names
      an address on the current page. */
  function RequestedAddresses(s: seq<Byte>, page: Byte): seq<nat>
  {
    if s == [] then []
    else if s[0] == CmdPage && |s| >= 2 then RequestedAddresses(s[2..], s[1])
    else [Address(page, s[0])] + RequestedAddresses(s[1..], page)
  }

  /** Page directives are sent only where needed yet enough: the device recovers every requested
      address, in order, as long as it is 16-bit and its low byte is not `FF`. */
  lemma {:induction false} RequestRoundTrip(addresses: seq<nat>, page: Byte)
    requires forall i :: 0 <= i < |addresses| ==> addresses[i] < 65536 && addresses[i] % 256 != CmdPage
    ensures RequestedAddresses(RequestFrom(addresses, page), page) == addresses
  {
    if addresses != [] {
      var a := addresses[0];
      var p: Byte := (a / 256) % 256;
      var later := RequestFrom(addresses[1..], p);
      RequestRoundTrip(addresses[1..], p);
      var low := [a % 256] + later;
      assert RequestedAddresses(low, p) == [a] + addresses[1..] by {
        assert low[1..] == later;
      }
      if p != page {
        var s := [CmdPage, p] + low;
        assert s[2..] == low;
        assert RequestFrom(addresses, page) == s;
      } else {
        assert RequestFrom(addresses, page) == low;
      }
      assert [a] + addresses[1..] == addresses;
    }
  }

  /** Addresses on page 0 need no page directive: the body is just their low bytes. */
  lemma {:induction false} PageZeroRequest(addresses: seq<nat>)
    requires forall i :: 0 <= i < |addresses| ==> addresses[i] < 256
    ensures |RequestFrom(addresses, 0)| == |addresses|
    ensures forall i :: 0 <= i < |addresses| ==> RequestFrom(addresses, 0)[i] == addresses[i]
  {
    if addresses != [] {
      PageZeroRequest(addresses[1..]);
    }
  }

  /** Addresses are not grouped by page: a directive is emitted at every transition, in caller order. */
  lemma PageSwitchFollowsCallerOrder()
    ensures ReadRequest([0x0001, 0x0105]) == [0x01, 0x01, 0xFF, 0x01, 0x05]
    ensures ReadRequest([0x0105, 0x0001]) == [0x01, 0xFF, 0x01, 0x05, 0xFF, 0x00, 0x01]
  {
  }
}
