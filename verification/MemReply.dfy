/** Memory reads over the GDB protocol (src/sampler/memsampler.rs): the request text, the
    recognition of a reply, and the float that four bytes of target memory hold. */
module MemReply {
  import opened Common
  import opened GdbPacket

  /** `parse_hex_value`. Bytes that are not UTF-8 are not hexadecimal digits either. */
  function ParseHexValue(data: Bytes): Option<u32> {
    ParseUnsigned(16, 0xFFFF_FFFF, data)
  }

  /** The value that a response answers a read request with; None for keep-alive 'O' packets
      and for anything else that the sampler skips. */
  function ReplyValue(response: Response): Option<u32> {
    match response
    case Packet(data) => if data == "O" then None else ParseHexValue(data)
    case ACK => None
  }

  lemma PowersOf16()
    ensures Pow16(2) == 0x100 && Pow16(4) == 0x1_0000 && Pow16(8) == 0x1_0000_0000
  {
    assert Pow16(1) == 16;
    assert Pow16(3) == 16 * Pow16(2);
    assert Pow16(4) == 16 * Pow16(3);
    assert Pow16(5) == 16 * Pow16(4);
    assert Pow16(6) == 16 * Pow16(5);
    assert Pow16(7) == 16 * Pow16(6);
    assert Pow16(8) == 16 * Pow16(7);
  }

  /** `m {:08x},4`: read four bytes. Addresses are 32 bits wide. */
  function ReadRequest(address: u32): Bytes
  {
    PowersOf16();
    "m " + HexFixed(8, address) + ",4"
  }

  /** Every request names its address: a server can read it back. */
  lemma ReadRequestNamesAddress(address: u32)
    ensures var request := ReadRequest(address);
            && |request| == 12 && '#' !in request
            && request[..2] == "m " && request[10..] == ",4"
            && (forall i :: 2 <= i < 10 ==> request[i] in "0123456789abcdef")
            && ParseUnsigned(16, 0xFFFF_FFFF, request[2..10]) == Some(address)
  {
    PowersOf16();
    HexFixedParses(8, address, 0xFFFF_FFFF);
    HexFixedValue(8, address);
    HexFixedDigits(8, address);
    assert ReadRequest(address)[2..10] == HexFixed(8, address);
    forall i | 0 <= i < 12 ensures ReadRequest(address)[i] != '#' {
      assert 2 <= i < 10 ==> ReadRequest(address)[i] == HexFixed(8, address)[i - 2];
    }
  }

  /** The `width` low-order bytes of a number, most significant first. */
  function EncodeBigEndian(width: nat, n: nat): (bytes: Bytes)
    ensures |bytes| == width
  {
    if width == 0 then [] else EncodeBigEndian(width - 1, n / 0x100) + [(n % 0x100) as char]
  }

  /** `to_be_bytes` of a 32-bit word. */
  function ToBigEndian(v: u32): (bytes: Bytes)
    ensures |bytes| == 4
  {
    EncodeBigEndian(4, v)
  }

  /** The bit pattern of the little-endian float stored in four bytes. */
  function FloatBits(bytes: Bytes): (bits: nat)
    requires |bytes| == 4
    ensures IsWord(bits, bytes)
  {
    LittleEndianBytes(bytes);
    LittleEndian(bytes)
  }

  /** `bits` is the number in four bytes, least significant first. */
  ghost predicate IsWord(bits: nat, bytes: Bytes) {
    && |bytes| == 4
    && bits == bytes[0] as int + 0x100 * bytes[1] as int + 0x1_0000 * bytes[2] as int + 0x100_0000 * bytes[3] as int
  }

  /** What is made of the number in a reply: its four bytes change places. */
  lemma BytesChangePlaces(v: u32)
    ensures FloatBits(ToBigEndian(v)) ==
            v / 0x100_0000 + 0x100 * (v / 0x1_0000 % 0x100) + 0x1_0000 * (v / 0x100 % 0x100) + 0x100_0000 * (v % 0x100)
  {
    var one := EncodeBigEndian(1, v / 0x100_0000);
    var two := EncodeBigEndian(2, v / 0x1_0000);
    var three := EncodeBigEndian(3, v / 0x100);
    assert v / 0x100 / 0x100 == v / 0x1_0000 && v / 0x1_0000 / 0x100 == v / 0x100_0000;
    assert one == [(v / 0x100_0000) as char] by { assert EncodeBigEndian(0, v / 0x100_0000 / 0x100) == []; }
    assert two == one + [(v / 0x1_0000 % 0x100) as char];
    assert three == two + [(v / 0x100 % 0x100) as char];
    assert ToBigEndian(v) == three + [(v % 0x100) as char];
  }

  /** Exactly the responses that are taken for a value: packets of hexadecimal digits, in either case,
      at least one, perhaps behind one plus sign, of a number of 32 bits. Acknowledgements, keep-alive
      packets and everything else are not. */
  lemma ReplyValueIff(response: Response, v: u32)
    ensures ReplyValue(response) == Some(v) <==>
            response.Packet? && exists digits: Bytes ::
              digits != [] && (response.data == digits || response.data == "+" + digits)
              && DigitsValue(16, digits) == Some(v)
  {
    if response.Packet? {
      ParseUnsignedIff(16, 0xFFFF_FFFF, response.data, v);
      if response.data == "O" {
        OneDigit(16, 'O');
        assert response.data == ['O'] && Digit(16, 'O').None?;
        forall digits: Bytes ensures response.data != "+" + digits {
          assert ("+" + digits)[0] == '+';
        }
      }
    }
  }

  /** The server's answer: two hexadecimal digits for each byte of memory, in address order. */
  function MemoryReply(memory: Bytes): (s: Bytes)
    ensures |s| == 2 * |memory|
  {
    PowersOf16();
    if memory == [] then []
    else MemoryReply(memory[..|memory| - 1]) + HexFixed(2, memory[|memory| - 1] as int)
  }

  lemma SixteenTimes(n: nat, p: nat)
    ensures n * (16 * p) == 16 * (n * p)
  {}

  lemma {:induction false} HexFixedConcat(w: nat, n: nat, v: nat, m: nat)
    requires n < Pow16(w) && m < Pow16(v)
    ensures n * Pow16(v) + m < Pow16(w + v)
    ensures HexFixed(w, n) + HexFixed(v, m) == HexFixed(w + v, n * Pow16(v) + m)
  {
    if v == 0 {
      assert HexFixed(w, n) + [] == HexFixed(w, n);
    } else {
      var p := Pow16(v - 1);
      HexFixedConcat(w, n, v - 1, m / 16);
      SixteenTimes(n, p);
      assert n * Pow16(v) + m == 16 * (n * p + m / 16) + m % 16;
      assert (n * Pow16(v) + m) / 16 == n * p + m / 16;
      Associative(HexFixed(w, n), HexFixed(v - 1, m / 16), [DigitChar(m % 16)]);
    }
  }

  /** The number that memory contents denote when read most significant byte first. */
  function BigEndian(memory: Bytes): nat {
    if memory == [] then 0 else 0x100 * BigEndian(memory[..|memory| - 1]) + memory[|memory| - 1] as int
  }

  lemma {:induction false} MemoryReplyIsHex(memory: Bytes)
    ensures BigEndian(memory) < Pow16(2 * |memory|)
    ensures MemoryReply(memory) == HexFixed(2 * |memory|, BigEndian(memory))
  {
    if memory != [] {
      var n := |memory| - 1;
      PowersOf16();
      MemoryReplyIsHex(memory[..n]);
      HexFixedConcat(2 * n, BigEndian(memory[..n]), 2, memory[n] as int);
    }
  }

  lemma {:induction false} EncodeBigEndianInverts(memory: Bytes)
    ensures EncodeBigEndian(|memory|, BigEndian(memory)) == memory
  {
    if memory != [] {
      var n := |memory| - 1;
      EncodeBigEndianInverts(memory[..n]);
      assert memory == memory[..n] + [memory[n]];
    }
  }

  /** A reply made of four memory bytes is recognised, and yields the float stored in them. */
  lemma ReplyYieldsMemory(memory: Bytes)
    requires |memory| == 4
    ensures var r := ReplyValue(Packet(MemoryReply(memory)));
            && r.Some? && ToBigEndian(r.value) == memory
            && IsWord(FloatBits(ToBigEndian(r.value)), memory)
  {
    EncodeBigEndianInverts(memory);
    PowersOf16();
    MemoryReplyIsHex(memory);
    HexFixedParses(8, BigEndian(memory), 0xFFFF_FFFF);
    assert |MemoryReply(memory)| == 8;
  }

  /** The check cannot tell a GDB error report such as "E01" from data: every one is accepted
      as a value. */
  lemma ErrorRepliesAreTakenForValues(code: nat)
    requires code < 256
    ensures ReplyValue(Packet("E" + HexFixed(2, code))) == Some(0xE00 + code)
  {
    PowersOf16();
    HexFixedValue(2, code);
    BehindE(HexFixed(2, code), code);
  }

  lemma BehindE(low: Bytes, code: nat)
    requires |low| == 2 && code < 256 && DigitsValue(16, low) == Some(code)
    ensures ReplyValue(Packet("E" + low)) == Some(0xE00 + code)
  {
    hide DigitsValue;
    var e: Bytes := ['E'];
    OneDigit(16, 'E');
    DigitsArePositional(16, e, low);
    assert Power(16, 2) == 0x100 by { assert Power(16, 1) == 16; }
    assert "E" + low == e + low && (e + low)[0] == 'E' && |e + low| == 3;
  }
}
