/** GDB Remote Serial Protocol framing (src/gdbremote.rs): `$payload#hh` packets and `+`
    acknowledgements, as described in appendix E.1 "Overview" of the GDB manual. */
module GdbPacket {
  import opened Common
  import opened Reassembly

  datatype ParseError =
    | PacketTooShort | MissingDollar | MissingPound | NoRoomForChecksum | ChecksumNotHex | ChecksumMismatch

  datatype Response = ACK | Packet(data: Bytes)

  /** Wrapping 8-bit sum of the payload. */
  function Checksum(s: Bytes): (c: nat)
    ensures c < 256
  {
    if s == [] then 0 else (Checksum(s[..|s| - 1]) + s[|s| - 1] as int) % 256
  }

  /** The sum of the first `n` bytes. */
  function SumTo(s: Bytes, n: nat): nat
    requires n <= |s|
  {
    if n == 0 then 0 else SumTo(s, n - 1) + s[n - 1] as int
  }

  lemma {:induction false} SumToSame(s: Bytes, t: Bytes, n: nat)
    requires n <= |s| && n <= |t| && s[..n] == t[..n]
    ensures SumTo(s, n) == SumTo(t, n)
  {
    if n > 0 {
      assert s[..n - 1] == s[..n][..n - 1] && t[..n - 1] == t[..n][..n - 1];
      assert s[n - 1] == s[..n][n - 1] && t[n - 1] == t[..n][n - 1];
      SumToSame(s, t, n - 1);
    }
  }

  /** The checksum is the sum of all bytes of the payload modulo 256. */
  lemma {:induction false} ChecksumIsSum(s: Bytes)
    ensures Checksum(s) == SumTo(s, |s|) % 256
  {
    if s != [] {
      var n := |s| - 1;
      ChecksumIsSum(s[..n]);
      assert s[..n][..n] == s[..n];
      SumToSame(s, s[..n], n);
    }
  }

  /** A packet, byte for byte. */
  lemma PacketBytes(payload: Bytes)
    ensures var sum := SumTo(payload, |payload|) % 256;
            BuildPacket(payload) ==
            ['$'] + payload + ['#'] + [LOWER_DIGITS[sum / 16], LOWER_DIGITS[sum % 16]]
  {
    ChecksumIsSum(payload);
    assert Pow16(2) == 256 by { assert Pow16(1) == 16; }
    HexFixedTwo(Checksum(payload));
  }

  /** The packets of every session, as they are sent. */
  lemma OpeningPackets()
    ensures BuildPacket("c") == "$" + "c" + "#63"
    ensures BuildPacket("OK") == "$" + "OK" + "#9a"
    ensures BuildPacket("QStartNoAckMode") == "$" + "QStartNoAckMode" + "#b0"
  {
    hide BuildPacket, SumTo;
    var run: Bytes, ok: Bytes, request: Bytes := "c", "OK", "QStartNoAckMode";
    SumsOfOpening();
    PacketIs(run, 0x63, "#63");
    PacketIs(ok, 0x9a, "#9a");
    PacketIs(request, 0xb0, "#b0");
  }

  lemma PacketIs(payload: Bytes, sum: nat, tail: Bytes)
    requires SumTo(payload, |payload|) % 256 == sum
    requires |tail| == 3 && tail[0] == '#' && tail[1] == LOWER_DIGITS[sum / 16] && tail[2] == LOWER_DIGITS[sum % 16]
    ensures BuildPacket(payload) == "$" + payload + tail
  {
    hide BuildPacket, SumTo;
    PacketBytes(payload);
    var digits := [tail[1], tail[2]];
    assert tail == ['#'] + digits;
    Associative(['$'] + payload, ['#'], digits);
  }

  lemma SumsOfOpening()
    ensures SumTo("c", 1) == 0x63 && SumTo("OK", 2) == 0x9a
    ensures SumTo("QStartNoAckMode", 15) == 0x5b0
  {
    var s: Bytes := "QStartNoAckMode";
    assert SumTo(s, 2) == 164;
    assert SumTo(s, 4) == 377;
    assert SumTo(s, 6) == 607;
    assert SumTo(s, 8) == 796;
    assert SumTo(s, 10) == 960;
    assert SumTo(s, 12) == 1144;
    assert SumTo(s, 14) == 1355;
  }

  function BuildPacket(payload: Bytes): Bytes {
    assert Pow16(2) == 256 by { assert Pow16(1) == 16; }
    "$" + payload + "#" + HexFixed(2, Checksum(payload))
  }

  function ParsePacket(bytes: Bytes): Result<Bytes, ParseError> {
    if |bytes| < 4 then Err(PacketTooShort)
    else if bytes[0] != '$' then Err(MissingDollar)
    else
      match IndexOf('#', bytes)
      case None => Err(MissingPound)
      case Some(pound) =>
        if |bytes| < pound + 3 then Err(NoRoomForChecksum)
        else
          var contents := bytes[1..pound];
          // Two bytes that are not UTF-8 are not hexadecimal digits either.
          match ParseUnsigned(16, 255, bytes[pound + 1..pound + 3])
          case None => Err(ChecksumNotHex)
          case Some(checksum) => if Checksum(contents) != checksum then Err(ChecksumMismatch) else Ok(contents)
  }

  /** What it means for a buffer to begin with a well-formed packet that carries `p`. */
  ghost predicate StartsWithPacket(s: Bytes, p: Bytes) {
    && '#' !in p
    && |p| + 4 <= |s|
    && s[0] == '$' && s[1..|p| + 1] == p && s[|p| + 1] == '#'
    && ParseUnsigned(16, 255, s[|p| + 2..|p| + 4]) == Some(Checksum(p))
  }

  /** The parser accepts exactly the buffers that begin with a well-formed packet. */
  lemma ParsePacketIff(s: Bytes, p: Bytes)
    ensures ParsePacket(s) == Ok(p) <==> StartsWithPacket(s, p)
  {
    if StartsWithPacket(s, p) {
      forall j | 0 <= j < |p| + 1 ensures s[j] != '#' {
        assert j > 0 ==> s[j] == s[1..|p| + 1][j - 1];
      }
      FirstIndex('#', s, |p| + 1);
    }
    if ParsePacket(s) == Ok(p) {
      var pound := IndexOf('#', s).value;
      forall j | 0 <= j < |p| ensures p[j] != '#' {
        assert p[j] == s[..pound][j + 1];
      }
    }
  }

  /** A packet reads back as its payload, whatever follows, exactly when the payload has no '#'. */
  lemma BuildThenParse(p: Bytes, rest: Bytes)
    ensures ParsePacket(BuildPacket(p) + rest) == Ok(p) <==> '#' !in p
  {
    var s := BuildPacket(p) + rest;
    ParsePacketIff(s, p);
    assert s[1..|p| + 1] == p;
    assert Pow16(2) == 256 by { assert Pow16(1) == 16; }
    HexFixedParses(2, Checksum(p), 255);
    assert s[|p| + 2..|p| + 4] == HexFixed(2, Checksum(p));
  }

  /** The two readers of the client, in the order in which they are tried. */
  function CutResponse(s: Bytes): Option<Cut<Response>> {
    if |s| > 0 && s[0] == '+' then Some(Cut(ACK, 1))
    else
      match ParsePacket(s)
      case Ok(data) => Some(Cut(Packet(data), |data| + 4))
      case Err(_) => None
  }

  /** Bytes that arrive later never change a response that can already be read. */
  lemma CutResponseStable()
    ensures Stable(CutResponse)
  {
    forall s: Bytes, t: Bytes ensures StableAt(CutResponse, s, t) {
      if CutResponse(s).Some? && s[0] != '+' {
        var p := ParsePacket(s).value;
        ParsePacketIff(s, p);
        assert StartsWithPacket(s + t, p) by {
          assert (s + t)[1..|p| + 1] == s[1..|p| + 1];
          assert (s + t)[|p| + 2..|p| + 4] == s[|p| + 2..|p| + 4];
        }
        ParsePacketIff(s + t, p);
      }
    }
  }

  function Encode(r: Response): Bytes {
    match r
    case ACK => "+"
    case Packet(data) => BuildPacket(data)
  }

  function EncodeAll(rs: seq<Response>): Bytes {
    if rs == [] then [] else Encode(rs[0]) + EncodeAll(rs[1..])
  }

  ghost predicate Encodable(rs: seq<Response>) {
    forall r :: r in rs && r.Packet? ==> '#' !in r.data
  }

  lemma CutEncoded(r: Response, rest: Bytes)
    requires r.Packet? ==> '#' !in r.data
    ensures CutResponse(Encode(r) + rest) == Some(Cut(r, |Encode(r)|))
  {
    if r.Packet? {
      BuildThenParse(r.data, rest);
    }
  }

  /** Cutting undoes encoding, for every list of responses and whatever follows it. */
  lemma {:induction false} CutAllEncoded(rs: seq<Response>, rest: Bytes)
    requires Encodable(rs)
    ensures CutAll(CutResponse, EncodeAll(rs) + rest) ==
            (rs + CutAll(CutResponse, rest).0, CutAll(CutResponse, rest).1)
  {
    if rs == [] {
      assert EncodeAll(rs) + rest == rest;
      assert [] + CutAll(CutResponse, rest).0 == CutAll(CutResponse, rest).0;
    } else {
      var tail := EncodeAll(rs[1..]) + rest;
      Associative(Encode(rs[0]), EncodeAll(rs[1..]), rest);
      CutEncoded(rs[0], tail);
      DropAppend(Encode(rs[0]), tail, |Encode(rs[0])|);
      CutAllEncoded(rs[1..], rest);
      assert rs == [rs[0]] + rs[1..];
      Associative([rs[0]], rs[1..], CutAll(CutResponse, rest).0);
    }
  }

  /** GDB stream round trip: any list of responses, encoded and delivered in any pieces with
      errors anywhere in between, is what repeated reading returns; nothing is left over. */
  lemma StreamRoundTrip<S, E>(rs: seq<Response>, inbox: seq<Arrival<S, E>>)
    requires Encodable(rs) && AllBytes(inbox) == EncodeAll(rs)
    ensures Session(CutResponse, [], inbox) == (rs, [])
  {
    CutResponseStable();
    SessionIsCutAll(CutResponse, [], inbox);
    CutAllEncoded(rs, []);
    assert [] + AllBytes(inbox) == EncodeAll(rs) + [];
    assert rs + [] == rs;
  }

  /** The buffers that no further bytes can turn into a readable response: neither '+' nor '$'
      in front, or a complete packet whose checksum is wrong or cannot become right. */
  predicate Stuck(s: Bytes) {
    && s != [] && s[0] != '+'
    && (s[0] != '$' ||
        match IndexOf('#', s)
        case None => false
        case Some(p) =>
          var sum := Checksum(s[1..p]);
          if |s| >= p + 3 then ParseUnsigned(16, 255, s[p + 1..p + 3]) != Some(sum)
          else if |s| == p + 2 then
            Digit(16, s[p + 1]) != Some(sum / 16) && !(s[p + 1] == '+' && sum < 16)
          else false)
  }

  lemma TwoDigits(a: byte, b: byte)
    ensures a != '+' ==>
              ParseUnsigned(16, 255, [a, b]) ==
              match (Digit(16, a), Digit(16, b)) {
                case (Some(x), Some(y)) => Some(16 * x + y)
                case _ => None
              }
    ensures ParseUnsigned(16, 255, ['+', b]) == Digit(16, b)
  {
    assert [a, b][..1] == [a] && [a][..0] == [] && [b][..0] == [];
    assert ['+', b][1..] == [b];
    assert DigitsValue(16, [b]) == Digit(16, b) && DigitsValue(16, [a]) == Digit(16, a);
  }

  /** A client that has lost synchronisation stays silent for ever... */
  lemma StuckForever(s: Bytes, t: Bytes)
    requires Stuck(s)
    ensures CutResponse(s + t).None?
  {
    if s[0] == '$' && |s + t| >= 4 {
      StuckBehindPound(s, t, IndexOf('#', s).value);
    }
  }

  lemma StuckBehindPound(s: Bytes, t: Bytes, i: nat)
    requires Stuck(s) && s[0] == '$' && IndexOf('#', s) == Some(i)
    ensures ParsePacket(s + t).Err?
  {
    var full := s + t;
    IndexStable('#', s, t);
    SliceOfConcat(s, t, 1, i);
    if |full| >= i + 3 {
      WrongDigits(s, t, i);
    }
  }

  lemma WrongDigits(s: Bytes, t: Bytes, i: nat)
    requires Stuck(s) && s[0] == '$' && IndexOf('#', s) == Some(i) && i + 3 <= |s + t|
    ensures ParseUnsigned(16, 255, (s + t)[i + 1..i + 3]) != Some(Checksum(s[1..i]))
  {
    if |s| >= i + 3 {
      SliceOfConcat(s, t, i + 1, i + 3);
    } else {
      var a, b := (s + t)[i + 1], (s + t)[i + 2];
      assert (s + t)[i + 1..i + 3] == [a, b];
      TwoDigits(a, b);
    }
  }

  /** ... and every other buffer can still be completed. */
  lemma NotStuckCompletes(s: Bytes) returns (t: Bytes)
    requires !Stuck(s)
    ensures CutResponse(s + t).Some?
  {
    if s == [] {
      t := "+";
    } else if s[0] == '+' {
      t := [];
    } else if IndexOf('#', s).None? {
      t := CompleteBeforePound(s);
    } else {
      t := CompleteAfterPound(s, IndexOf('#', s).value);
    }
  }

  /** The two digits of the checksum of `p`. */
  function ChecksumDigits(p: Bytes): (digits: Bytes)
    ensures |digits| == 2 && ParseUnsigned(16, 255, digits) == Some(Checksum(p))
  {
    var high, low := DigitChar(Checksum(p) / 16), DigitChar(Checksum(p) % 16);
    TwoDigits(high, low);
    [high, low]
  }

  lemma CompleteBeforePound(s: Bytes) returns (t: Bytes)
    requires s != [] && s[0] == '$' && '#' !in s
    ensures CutResponse(s + t).Some?
  {
    var p := s[1..];
    var digits := ChecksumDigits(p);
    t := "#" + digits;
    assert digits[..2] == digits;
    CompletePacket(p, digits);
    assert s + t == "$" + p + "#" + digits;
  }

  lemma CompleteAfterPound(s: Bytes, i: nat) returns (t: Bytes)
    requires s != [] && s[0] == '$' && IndexOf('#', s) == Some(i) && !Stuck(s)
    ensures CutResponse(s + t).Some?
  {
    hide Checksum, CutResponse, ParseUnsigned, Digit, IndexOf;
    var p, rest := s[1..i], s[i + 1..];
    SplitAtPound(s, i);
    assert |rest| >= 2 ==> rest[..2] == s[i + 1..i + 3];
    t := CompleteDigits(p, rest);
    CompletePacket(p, rest + t);
    Associative("$" + p + "#", rest, t);
  }

  lemma SplitAtPound(s: Bytes, i: nat)
    requires s != [] && s[0] == '$' && IndexOf('#', s) == Some(i)
    ensures 1 <= i < |s| && s == "$" + s[1..i] + "#" + s[i + 1..] && '#' !in s[1..i]
  {
    hide IndexOf;
    assert s[i] == '#' && i >= 1;
    InsideIsPlain(s, i);
    SplitAt(s, i);
  }

  lemma InsideIsPlain(s: Bytes, i: nat)
    requires 1 <= i <= |s| && '#' !in s[..i]
    ensures '#' !in s[1..i]
  {
    forall j | 0 <= j < i - 1 ensures s[1..i][j] != '#' {
      assert s[1..i][j] == s[..i][j + 1];
    }
  }

  lemma SplitAt<T>(s: seq<T>, i: nat)
    requires 1 <= i < |s|
    ensures s == [s[0]] + s[1..i] + [s[i]] + s[i + 1..]
  {}

  lemma CompleteDigits(p: Bytes, rest: Bytes) returns (t: Bytes)
    requires |rest| >= 2 ==> ParseUnsigned(16, 255, rest[..2]) == Some(Checksum(p))
    requires |rest| == 1 ==> Digit(16, rest[0]) == Some(Checksum(p) / 16) || (rest[0] == '+' && Checksum(p) < 16)
    ensures |rest + t| >= 2 && ParseUnsigned(16, 255, (rest + t)[..2]) == Some(Checksum(p))
  {
    if |rest| == 0 {
      t := ChecksumDigits(p);
      assert (rest + t)[..2] == t;
    } else if |rest| == 1 {
      var low := DigitChar(Checksum(p) % 16);
      t := [low];
      TwoDigits(rest[0], low);
      assert (rest + t)[..2] == [rest[0], low];
    } else {
      t := [];
      assert (rest + t)[..2] == rest[..2];
    }
  }

  lemma CompletePacket(p: Bytes, rest: Bytes)
    requires '#' !in p && |rest| >= 2 && ParseUnsigned(16, 255, rest[..2]) == Some(Checksum(p))
    ensures CutResponse("$" + p + "#" + rest).Some?
  {
    var s := "$" + p + "#" + rest;
    assert s[1..|p| + 1] == p && s[|p| + 2..|p| + 4] == rest[..2];
    ParsePacketIff(s, p);
  }

  /** Exactly when reading can ever succeed again. */
  lemma StuckIff(s: Bytes)
    ensures Stuck(s) <==> forall t :: CutResponse(s + t).None?
  {
    if Stuck(s) {
      forall t ensures CutResponse(s + t).None? {
        StuckForever(s, t);
      }
    } else {
      var t := NotStuckCompletes(s);
    }
  }
}
