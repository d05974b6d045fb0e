/** Typed reads from a decoded reply dictionary (`ItemDictionaryExtensions`): a flag, a byte and a
    temperature in tenths of a degree, each refusing an absent address or a value of the wrong width. */
module ItemAccessors {
  import opened Bytes
  import opened Wrappers
  import opened VentsWire
  import opened ItemStream
  import opened ItemAddresses
  import opened VentsDevice

  /** The raw value stored for a named address, or `KeyNotFound`. */
  function Lookup(items: Items, address: ItemAddress): (r: Result<seq<Byte>, Error>)
    ensures r.Ok? <==> Code(address) in items
    ensures r.Ok? ==> r.value == items[Code(address)]
    ensures r.Err? ==> r.error == KeyNotFound
  {
    if Code(address) in items then Ok(items[Code(address)]) else Err(KeyNotFound)
  }

  /** `Bool`: a one-byte value, true when it is not zero. */
  function Bool(items: Items, address: ItemAddress): (r: Result<bool, Error>)
    ensures r.Ok? <==> Code(address) in items && |items[Code(address)]| == 1
    ensures r.Ok? ==> (r.value <==> items[Code(address)] != [0])
    ensures Code(address) !in items ==> r == Err(KeyNotFound)
    ensures Code(address) in items && |items[Code(address)]| != 1 ==> r == Err(WrongWidth)
  {
    var value :- Lookup(items, address);
    if |value| != 1 then Err(WrongWidth) else Ok(value[0] != 0)
  }

  /** `Byte`: a one-byte value as it is. */
  function ByteValue(items: Items, address: ItemAddress): (r: Result<Byte, Error>)
    ensures r.Ok? <==> Code(address) in items && |items[Code(address)]| == 1
    ensures r.Ok? ==> items[Code(address)] == [r.value]
    ensures Code(address) !in items ==> r == Err(KeyNotFound)
    ensures Code(address) in items && |items[Code(address)]| != 1 ==> r == Err(WrongWidth)
  {
    var value :- Lookup(items, address);
    if |value| != 1 then Err(WrongWidth) else Ok(value[0])
  }

  /** `Temperature`, in tenths of a degree: a two-byte little-endian signed value. */
  function Temperature(items: Items, address: ItemAddress): (r: Result<int, Error>)
    ensures r.Ok? <==> Code(address) in items && |items[Code(address)]| == 2
    ensures r.Ok? ==> -32768 <= r.value <= 32767
    ensures r.Ok? ==> (r.value - ReadU16(items[Code(address)][0], items[Code(address)][1])) % U16 == 0
    ensures Code(address) !in items ==> r == Err(KeyNotFound)
    ensures Code(address) in items && |items[Code(address)]| != 2 ==> r == Err(WrongWidth)
  {
    var value :- Lookup(items, address);
    if |value| != 2 then Err(WrongWidth) else Ok(ReadI16(value[0], value[1]))
  }

  /** A temperature stored as its two's-complement bytes reads back unchanged. */
  lemma TemperatureOfEncoded(items: Items, address: ItemAddress, t: int)
    requires -32768 <= t <= 32767
    requires Code(address) in items && items[Code(address)] == EncodeI16(t)
    ensures Temperature(items, address) == Ok(t)
  {
    ReadEncodedI16(t);
  }

  /** A unit that is on and reads 25.0 degrees in the room: the reply to a read of `OnOff` and
      `RoomTemperatureActual` (serial "12345", password "1111") decodes to a true flag and 250 tenths. */
  lemma OnAndRoomTemperatureReply()
    ensures var serial := [0x31, 0x32, 0x33, 0x34, 0x35];
      var password := [0x31, 0x31, 0x31, 0x31];
      var es := [Item(Code(OnOff), [1]), Item(Code(RoomTemperatureActual), [0xFA, 0x00])];
      var reply := DecodeReply(Frame(serial, password, [FunctionReply] + EncodeFrom(es, 0)));
      reply.Ok? && Bool(reply.value, OnOff) == Ok(true)
      && Temperature(reply.value, RoomTemperatureActual) == Ok(250)
  {
    var serial := [0x31, 0x32, 0x33, 0x34, 0x35];
    var password := [0x31, 0x31, 0x31, 0x31];
    var es := [Item(Code(OnOff), [1]), Item(Code(RoomTemperatureActual), [0xFA, 0x00])];
    DecodeComposedReply(serial, password, es);
    var items := Collect(es, map[]);
    assert es[1..][1..] == [];
    assert items == map[1 := [1], 30 := [0xFA, 0x00]];
    ReadI16Examples();
  }
}
