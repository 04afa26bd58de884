/** The packets of an RTT scope channel (src/sampler/rttsampler.rs): their layout, which is
    spelled out in the name of the channel, and the decoding of one packet. */
module RttPacket {
  import opened Common

  datatype FieldType = Boolean | Float | Signed | Unsigned
  datatype Field = Field(type_: FieldType, size: nat)
  datatype Structure = Structure(hasTime: bool, fields: seq<Field>)

  // A decoded value before its conversion to a 32-bit float; floats stay bit patterns.
  datatype Value = Flag(on: bool) | FloatBits(bits: nat) | Whole(n: int)

  function FieldsSize(fields: seq<Field>): nat {
    if fields == [] then 0 else fields[0].size + FieldsSize(fields[1..])
  }

  function PacketSize(st: Structure): nat {
    FieldsSize(st.fields) + if st.hasTime then 4 else 0
  }

  /** The eight kinds of field that a channel name can ask for. */
  predicate Known(f: Field) {
    match f.type_
    case Boolean => f.size == 1
    case Float => f.size == 4
    case Signed | Unsigned => f.size in {1, 2, 4}
  }

  predicate AllKnown(fields: seq<Field>) {
    forall f :: f in fields ==> Known(f)
  }

  /** The number that an integer of `size` bytes holds when read in two's complement. */
  function TwosComplement(size: nat, n: nat): int {
    if n < Pow256(size) / 2 then n else n - Pow256(size)
  }

  function DecodeField(f: Field, bytes: Bytes): Option<Value> {
    match f.type_
    case Boolean => if bytes == [] then None else Some(Flag(bytes[0] != '\0'))
    case Float => if |bytes| == 4 then Some(FloatBits(LittleEndian(bytes))) else None
    case Signed =>
      if f.size in {1, 2, 4} && |bytes| == f.size then Some(Whole(TwosComplement(f.size, LittleEndian(bytes))))
      else None
    case Unsigned =>
      if f.size in {1, 2, 4} && |bytes| == f.size then Some(Whole(LittleEndian(bytes))) else None
  }

  /** What the bytes of a field mean, spelled out for all eight kinds. */
  lemma FieldMeaning(f: Field, bytes: Bytes)
    requires Known(f) && |bytes| == f.size
    ensures f.type_ == Boolean ==> DecodeField(f, bytes) == Some(Flag(bytes[0] as int != 0))
    ensures var b := seq(|bytes|, i requires 0 <= i < |bytes| => bytes[i] as int);
            var n := if f.size == 1 then b[0]
                     else if f.size == 2 then b[0] + 0x100 * b[1]
                     else b[0] + 0x100 * b[1] + 0x1_0000 * b[2] + 0x100_0000 * b[3];
            && (f.type_ == Float ==> DecodeField(f, bytes) == Some(FloatBits(n)))
            && (f.type_ == Unsigned ==> DecodeField(f, bytes) == Some(Whole(n)))
            && (f.type_ == Signed ==>
                  DecodeField(f, bytes) ==
                  Some(Whole(if f.size == 1 && n >= 0x80 then n - 0x100
                             else if f.size == 2 && n >= 0x8000 then n - 0x1_0000
                             else if f.size == 4 && n >= 0x8000_0000 then n - 0x1_0000_0000
                             else n)))
  {
    PowersOf256();
    LittleEndianBytes(bytes);
  }

  /** Where the time of a packet is and what it means. */
  lemma TimeMeaning(st: Structure, bytes: Bytes)
    requires |bytes| >= PacketSize(st) && st.hasTime && Decode(st, bytes).Some?
    ensures Decode(st, bytes).value.0 ==
            Some(bytes[0] as int + 0x100 * bytes[1] as int + 0x1_0000 * bytes[2] as int + 0x100_0000 * bytes[3] as int)
  {
    LittleEndianBytes(bytes[..4]);
  }

  function DecodeFields(fields: seq<Field>, bytes: Bytes): Option<seq<Value>>
    requires |bytes| >= FieldsSize(fields)
  {
    if fields == [] then Some([])
    else
      var n := fields[0].size;
      match DecodeField(fields[0], bytes[..n])
      case None => None
      case Some(v) =>
        match DecodeFields(fields[1..], bytes[n..])
        case None => None
        case Some(vs) => Some([v] + vs)
  }

  /** `decode_bytes`: the time, when the structure has one, and one value per field. Shorter
      input is what the source's slicing would panic on. */
  function Decode(st: Structure, bytes: Bytes): Option<(Option<nat>, seq<Value>)>
    requires |bytes| >= PacketSize(st)
  {
    var time := if st.hasTime then Some(LittleEndian(bytes[..4])) else None;
    match DecodeFields(st.fields, bytes[if st.hasTime then 4 else 0..])
    case None => None
    case Some(values) => Some((time, values))
  }

  // ---- an encoder, and decoding as its inverse ----

  predicate Fits(f: Field, v: Value) {
    match f.type_
    case Boolean => v.Flag?
    case Float => v.FloatBits? && v.bits < Pow256(4)
    case Signed => v.Whole? && -(Pow256(f.size) / 2) <= v.n < Pow256(f.size) / 2
    case Unsigned => v.Whole? && 0 <= v.n < Pow256(f.size)
  }

  predicate AllFit(fields: seq<Field>, values: seq<Value>) {
    |fields| == |values| && forall i :: 0 <= i < |fields| ==> Fits(fields[i], values[i])
  }

  function EncodeValue(f: Field, v: Value): (bytes: Bytes)
    requires Known(f) && Fits(f, v)
    ensures |bytes| == f.size
  {
    match v
    case Flag(on) => [if on then 1 as char else 0 as char]
    case FloatBits(bits) => EncodeLittleEndian(f.size, bits)
    case Whole(n) => EncodeLittleEndian(f.size, if n < 0 then n + Pow256(f.size) else n)
  }

  function EncodeValues(fields: seq<Field>, values: seq<Value>): (bytes: Bytes)
    requires AllKnown(fields) && AllFit(fields, values)
    ensures |bytes| == FieldsSize(fields)
  {
    if fields == [] then [] else EncodeValue(fields[0], values[0]) + EncodeValues(fields[1..], values[1..])
  }

  function Encode(st: Structure, time: u32, values: seq<Value>): (bytes: Bytes)
    requires AllKnown(st.fields) && AllFit(st.fields, values)
    ensures |bytes| == PacketSize(st)
  {
    (if st.hasTime then EncodeLittleEndian(4, time) else []) + EncodeValues(st.fields, values)
  }

  lemma DecodeEncodedValue(f: Field, v: Value)
    requires Known(f) && Fits(f, v)
    ensures DecodeField(f, EncodeValue(f, v)) == Some(v)
  {
    PowersOf256();
    if v.FloatBits? {
      DecodeLittleEndian(f.size, v.bits);
    } else if v.Whole? {
      DecodeLittleEndian(f.size, if v.n < 0 then v.n + Pow256(f.size) else v.n);
    }
  }

  lemma {:induction false} DecodeEncodedValues(fields: seq<Field>, values: seq<Value>, tail: Bytes)
    requires AllKnown(fields) && AllFit(fields, values)
    ensures DecodeFields(fields, EncodeValues(fields, values) + tail) == Some(values)
  {
    if fields != [] {
      var head, rest := EncodeValue(fields[0], values[0]), EncodeValues(fields[1..], values[1..]);
      DecodeEncodedValue(fields[0], values[0]);
      DecodeEncodedValues(fields[1..], values[1..], tail);
      Associative(head, rest, tail);
      DropAppend(head, rest + tail, |head|);
      assert values == [values[0]] + values[1..];
    }
  }

  /** Decoding recovers the time, the integers, the booleans and the float bits that were
      encoded, whatever bytes follow the packet. */
  lemma DecodeInvertsEncode(st: Structure, time: u32, values: seq<Value>, tail: Bytes)
    requires AllKnown(st.fields) && AllFit(st.fields, values)
    ensures Decode(st, Encode(st, time, values) + tail) ==
            Some((if st.hasTime then Some(time as nat) else None, values))
  {
    var fields := EncodeValues(st.fields, values);
    DecodeEncodedValues(st.fields, values, tail);
    if st.hasTime {
      var head := EncodeLittleEndian(4, time);
      PowersOf256();
      DecodeLittleEndian(4, time);
      Associative(head, fields, tail);
      DropAppend(head, fields + tail, 4);
      assert (Encode(st, time, values) + tail)[..4] == head;
    } else {
      assert Encode(st, time, values) == fields;
      assert (fields + tail)[0..] == fields + tail;
    }
  }

  /** Booleans written as 0 or 1, as the encoder writes them. */
  predicate Canonical(fields: seq<Field>, bytes: Bytes)
    requires |bytes| >= FieldsSize(fields)
  {
    fields == [] ||
    (&& (fields[0].type_ == Boolean && fields[0].size == 1 ==> bytes[0] as int <= 1)
     && Canonical(fields[1..], bytes[fields[0].size..]))
  }

  lemma DecodeKnownField(f: Field, bytes: Bytes)
    requires Known(f) && |bytes| == f.size
    ensures DecodeField(f, bytes).Some? && Fits(f, DecodeField(f, bytes).value)
    ensures (f.type_ == Boolean ==> bytes[0] as int <= 1) ==> EncodeValue(f, DecodeField(f, bytes).value) == bytes
  {
    PowersOf256();
    ReencodeLittleEndian(bytes);
  }

  lemma {:induction false} DecodeKnownFields(fields: seq<Field>, bytes: Bytes)
    requires AllKnown(fields) && |bytes| >= FieldsSize(fields)
    ensures DecodeFields(fields, bytes).Some? && AllFit(fields, DecodeFields(fields, bytes).value)
    ensures Canonical(fields, bytes) ==>
              EncodeValues(fields, DecodeFields(fields, bytes).value) == bytes[..FieldsSize(fields)]
  {
    if fields != [] {
      var n := fields[0].size;
      DecodeKnownField(fields[0], bytes[..n]);
      DecodeKnownFields(fields[1..], bytes[n..]);
      var values := DecodeFields(fields, bytes).value;
      assert values[1..] == DecodeFields(fields[1..], bytes[n..]).value;
      assert bytes[..FieldsSize(fields)] == bytes[..n] + bytes[n..][..FieldsSize(fields[1..])];
    }
  }

  /** Decoding is total on the structures that names can describe: one value per field, a time
      exactly when declared; and every byte counts, since the packet can be rebuilt. */
  lemma DecodeIsTotal(st: Structure, bytes: Bytes)
    requires AllKnown(st.fields) && |bytes| == PacketSize(st)
    ensures Decode(st, bytes).Some?
    ensures var (time, values) := Decode(st, bytes).value;
            && (time.Some? <==> st.hasTime)
            && AllFit(st.fields, values)
            && (time.Some? ==> time.value <= 0xFFFF_FFFF)
            && (Canonical(st.fields, bytes[if st.hasTime then 4 else 0..]) ==>
                  Encode(st, if time.Some? then time.value else 0, values) == bytes)
  {
    hide DecodeFields, EncodeValues, AllFit, Canonical, LittleEndian, EncodeLittleEndian, Pow256;
    var k := if st.hasTime then 4 else 0;
    DecodeKnownFields(st.fields, bytes[k..]);
    assert bytes[k..][..FieldsSize(st.fields)] == bytes[k..];
    if st.hasTime {
      PowersOf256();
      ReencodeLittleEndian(bytes[..4]);
      assert bytes == bytes[..4] + bytes[4..];
    }
  }

  /** The same as a loop over the fields with a moving slice. */
  method DecodeBytes(st: Structure, packet: Bytes) returns (r: Option<(Option<nat>, seq<Value>)>)
    requires |packet| >= PacketSize(st)
    ensures r == Decode(st, packet)
  {
    var bytes := packet;
    var time: Option<nat> := None;
    if st.hasTime {
      time := Some(LittleEndian(bytes[0..4]));
      bytes := bytes[4..];
    }
    var values: seq<Value> := [];
    ghost var all := DecodeFields(st.fields, bytes);
    assert all.Some? ==> [] + all.value == all.value;
    var i := 0;
    while i < |st.fields|
      invariant 0 <= i <= |st.fields| && |bytes| >= FieldsSize(st.fields[i..])
      invariant all == match DecodeFields(st.fields[i..], bytes) {
                         case None => None
                         case Some(rest) => Some(values + rest)
                       }
    {
      var field := st.fields[i];
      assert st.fields[i..][0] == field && st.fields[i..][1..] == st.fields[i + 1..];
      var toDecode := bytes[..field.size];
      ghost var rest := DecodeFields(st.fields[i + 1..], bytes[field.size..]);
      bytes := bytes[field.size..];
      match DecodeField(field, toDecode) {
        case None => return None;
        case Some(v) =>
          assert rest.Some? ==> values + ([v] + rest.value) == values + [v] + rest.value;
          values := values + [v];
      }
      i := i + 1;
    }
    assert values + [] == values;
    r := Some((time, values));
  }
}
