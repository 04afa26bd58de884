/** The naming convention of RTT scope channels (src/sampler/rttsampler.rs): "JScope_T4F4I2"
    announces packets with a 32-bit time, a float and a 16-bit integer. Names are the UTF-8
    bytes of a string. */
module RttName {
  import opened Common
  import opened RttPacket

  // `Panicked` is the slice that does not fall on a character boundary.
  datatype Parsed = Parsed(structure: Structure) | NoMatch | Panicked

  datatype ParsedFields = Fields(fields: seq<Field>) | BadField | BadSlice

  function LowerChar(c: byte): byte {
    if 'A' <= c <= 'Z' then (c as int - 'A' as int + 'a' as int) as char else c
  }

  function Lower(s: Bytes): (r: Bytes)
    ensures |r| == |s|
  {
    seq(|s|, i requires 0 <= i < |s| => LowerChar(s[i]))
  }

  /** What follows the last underscore. */
  function LastSegment(s: Bytes): (r: Bytes)
    ensures '_' !in r
  {
    if s == [] || s[|s| - 1] == '_' then [] else LastSegment(s[..|s| - 1]) + [s[|s| - 1]]
  }

  /** `RTTScopePacketField::parse` on two bytes. */
  function ParseField(description: Bytes): (r: Option<Field>)
    requires |description| == 2
    ensures r.Some? ==> Known(r.value)
  {
    var t, s := LowerChar(description[0]), LowerChar(description[1]);
    if s !in {'1', '2', '4'} then None
    else
      var size := s as int - '0' as int;
      if t == 'b' && size == 1 then Some(Field(Boolean, size))
      else if t == 'f' && size == 4 then Some(Field(Float, size))
      else if t == 'i' then Some(Field(Signed, size))
      else if t == 'u' then Some(Field(Unsigned, size))
      else None
  }

  /** The same letter, or the same other character: `lower` is the one in lower case. */
  predicate SameLetter(c: byte, lower: byte) {
    if 'a' <= lower <= 'z' then c == lower || c as int + 32 == lower as int else c == lower && !('A' <= c <= 'Z')
  }

  predicate IgnoringCase(s: Bytes, lower: Bytes) {
    |s| == |lower| && forall i :: 0 <= i < |s| ==> SameLetter(s[i], lower[i])
  }

  lemma LowerIff(s: Bytes, lower: Bytes)
    ensures Lower(s) == lower <==> IgnoringCase(s, lower)
  {
    forall c: byte, d: byte ensures LowerChar(c) == d <==> SameLetter(c, d) {}
    if IgnoringCase(s, lower) {
      assert forall i :: 0 <= i < |s| ==> Lower(s)[i] == lower[i];
    }
  }

  /** The fields that two characters can name, spelled out. */
  lemma FieldNames(description: Bytes, f: Field)
    requires |description| == 2
    ensures ParseField(description) == Some(f) <==>
            || (IgnoringCase(description, "b1") && f == Field(Boolean, 1))
            || (IgnoringCase(description, "f4") && f == Field(Float, 4))
            || (IgnoringCase(description, "i1") && f == Field(Signed, 1))
            || (IgnoringCase(description, "i2") && f == Field(Signed, 2))
            || (IgnoringCase(description, "i4") && f == Field(Signed, 4))
            || (IgnoringCase(description, "u1") && f == Field(Unsigned, 1))
            || (IgnoringCase(description, "u2") && f == Field(Unsigned, 2))
            || (IgnoringCase(description, "u4") && f == Field(Unsigned, 4))
  {
    var t, s := description[0], description[1];
    forall c: byte, d: byte ensures LowerChar(c) == d <==> SameLetter(c, d) {}
  }

  /** A byte of a UTF-8 sequence other than its first. */
  predicate Continuation(c: byte) {
    0x80 <= c as int < 0xC0
  }

  function ParseFields(s: Bytes): (r: ParsedFields)
    ensures r.Fields? ==> AllKnown(r.fields)
  {
    if |s| < 2 then Fields([])
    else if |s| > 2 && Continuation(s[2]) then BadSlice
    else
      match ParseField(s[..2])
      case None => BadField
      case Some(f) =>
        match ParseFields(s[2..])
        case Fields(fs) => Fields([f] + fs)
        case other => other
  }

  /** Exactly the descriptions on which slicing panics: those in which a cut behind some field, all
      fields before which can be parsed, is in the middle of a character. */
  lemma {:induction false} PanicsIff(s: Bytes)
    ensures ParseFields(s) == BadSlice <==> exists i: nat :: PanicsAt(s, i)
    decreases |s|
  {
    if |s| >= 2 {
      PanicsIff(s[2..]);
      if |s| > 2 && 0x80 <= s[2] as int < 0xC0 {
        assert PanicsAt(s, 0);
      } else {
        forall i: nat | PanicsAt(s, i) ensures i > 0 && ParseField(s[..2]).Some? && PanicsAt(s[2..], i - 1) {
          if i > 0 {
            PanicsLater(s, i);
          }
        }
        if ParseField(s[..2]).Some? {
          forall i: nat | PanicsAt(s[2..], i) ensures PanicsAt(s, i + 1) {
            PanicsEarlier(s, i);
          }
        }
      }
    }
  }

  ghost predicate PanicsAt(s: Bytes, i: nat) {
    && 2 * i + 2 < |s| && 0x80 <= s[2 * i + 2] as int < 0xC0
    && forall j :: 0 <= j < i ==> ParseField(s[2 * j..2 * j + 2]).Some? && !(0x80 <= s[2 * j + 2] as int < 0xC0)
  }

  lemma PanicsLater(s: Bytes, i: nat)
    requires i > 0 && PanicsAt(s, i)
    ensures ParseField(s[..2]).Some? && PanicsAt(s[2..], i - 1)
  {
    assert s[2 * 0..2 * 0 + 2] == s[..2];
    forall j | 0 <= j < i - 1
      ensures ParseField(s[2..][2 * j..2 * j + 2]).Some? && !(0x80 <= s[2..][2 * j + 2] as int < 0xC0)
    {
      assert s[2..][2 * j..2 * j + 2] == s[2 * (j + 1)..2 * (j + 1) + 2];
      assert s[2..][2 * j + 2] == s[2 * (j + 1) + 2];
    }
  }

  lemma PanicsEarlier(s: Bytes, i: nat)
    requires |s| >= 2 && ParseField(s[..2]).Some? && !(|s| > 2 && 0x80 <= s[2] as int < 0xC0) && PanicsAt(s[2..], i)
    ensures PanicsAt(s, i + 1)
  {
    var later := s[2..];
    forall j | 0 <= j < i + 1
      ensures ParseField(s[2 * j..2 * j + 2]).Some? && !(0x80 <= s[2 * j + 2] as int < 0xC0)
    {
      if j == 0 {
        assert s[2 * j..2 * j + 2] == s[..2];
      } else {
        assert ParseField(later[2 * (j - 1)..2 * (j - 1) + 2]).Some?;
        assert later[2 * (j - 1)..2 * (j - 1) + 2] == s[2 * j..2 * j + 2];
        assert later[2 * (j - 1) + 2] == s[2 * j + 2];
      }
    }
  }

  const TIME: Bytes := "t4"

  /** `parse_scope_packet_structure`. */
  function ParseName(name: Bytes): (r: Parsed)
    ensures r.Parsed? ==> AllKnown(r.structure.fields)
  {
    var format := Lower(LastSegment(name));
    var hasTime := TIME <= format;
    match ParseFields(if hasTime then format[2..] else format)
    case Fields(fs) => Parsed(Structure(hasTime, fs))
    case BadField => NoMatch
    case BadSlice => Panicked
  }

  // ---- printing a structure, and parsing as its inverse ----

  function FieldText(f: Field): (text: Bytes)
    requires Known(f)
    ensures |text| == 2
  {
    [match f.type_ case Boolean => 'b' case Float => 'f' case Signed => 'i' case Unsigned => 'u',
     ('0' as int + f.size) as char]
  }

  function FieldsText(fields: seq<Field>): (text: Bytes)
    requires AllKnown(fields)
    ensures |text| == 2 * |fields|
  {
    if fields == [] then [] else FieldText(fields[0]) + FieldsText(fields[1..])
  }

  /** The layout in lower case. */
  function Text(st: Structure): Bytes
    requires AllKnown(st.fields)
  {
    (if st.hasTime then TIME else []) + FieldsText(st.fields)
  }

  predicate Ascii(s: Bytes) {
    forall i :: 0 <= i < |s| ==> s[i] as int < 0x80
  }

  /** Two characters name a field exactly when they are its text, in either case. */
  lemma ParseFieldIff(s: Bytes, f: Field)
    requires |s| == 2
    ensures ParseField(s) == Some(f) <==> Known(f) && Lower(s) == FieldText(f)
  {
    assert Lower(s) == [LowerChar(s[0]), LowerChar(s[1])];
  }

  /** A string of field descriptions, with at most one character left over. */
  ghost predicate Describes(s: Bytes, fields: seq<Field>) {
    AllKnown(fields) && |s| <= 2 * |fields| + 1 && FieldsText(fields) <= Lower(s)
  }

  lemma {:induction false} ParseFieldsIff(s: Bytes, fields: seq<Field>)
    requires Ascii(s)
    ensures ParseFields(s) == Fields(fields) <==> Describes(s, fields)
    ensures ParseFields(s) != BadSlice
    decreases |s|
  {
    if |s| < 2 {
      assert |fields| > 0 && AllKnown(fields) ==> |FieldsText(fields)| > |Lower(s)|;
    } else {
      var head, rest := s[..2], s[2..];
      assert Lower(s) == Lower(head) + Lower(rest);
      if fields == [] {
        var tail := ParseFields(rest);
        ParseFieldsIff(rest, []);
      } else {
        ParseFieldIff(head, fields[0]);
        ParseFieldsIff(rest, fields[1..]);
        assert fields == [fields[0]] + fields[1..];
        assert AllKnown(fields) <==> Known(fields[0]) && AllKnown(fields[1..]);
        if AllKnown(fields) {
          PrefixOfConcat(FieldText(fields[0]), FieldsText(fields[1..]), Lower(head), Lower(rest));
        }
      }
    }
  }

  lemma PrefixOfConcat<T>(a: seq<T>, b: seq<T>, c: seq<T>, d: seq<T>)
    requires |a| == |c|
    ensures a + b <= c + d <==> a == c && b <= d
  {
    if a + b <= c + d {
      assert (a + b)[..|a|] == a && (c + d)[..|a|] == c;
      assert (c + d)[|a|..] == d && (a + b)[|a|..] == b;
    }
  }

  /** Exactly the names that parse. The layout is what follows the last underscore, in any letter
      case, with at most one character left over; the time comes only from a leading "t4", and
      the fields are only those of the eight known kinds. */
  lemma ParseNameIff(name: Bytes, st: Structure)
    requires Ascii(name)
    ensures ParseName(name) == Parsed(st) <==>
            && AllKnown(st.fields)
            && |LastSegment(name)| <= |Text(st)| + 1
            && Text(st) <= Lower(LastSegment(name))
    ensures ParseName(name) != Panicked
  {
    LastSegmentIsAscii(name);
    LowerIsAscii(LastSegment(name));
    LowerTwice(LastSegment(name));
    if TIME <= Lower(LastSegment(name)) {
      TimedFormatIff(Lower(LastSegment(name)), st);
    } else {
      UntimedFormatIff(Lower(LastSegment(name)), st);
    }
  }

  lemma TimedFormatIff(format: Bytes, st: Structure)
    requires Ascii(format) && Lower(format) == format && TIME <= format
    ensures ParseFields(format[2..]) == Fields(st.fields) && st.hasTime <==>
            AllKnown(st.fields) && |format| <= |Text(st)| + 1 && Text(st) <= format
    ensures ParseFields(format[2..]) != BadSlice
  {
    var rest := format[2..];
    assert Lower(rest) == Lower(format)[2..];
    ParseFieldsIff(rest, st.fields);
    assert format == TIME + rest;
    if AllKnown(st.fields) {
      if st.hasTime {
        PrefixOfConcat(TIME, FieldsText(st.fields), TIME, rest);
      } else if st.fields != [] {
        assert Text(st)[0] == FieldText(st.fields[0])[0];
      }
    }
  }

  lemma UntimedFormatIff(format: Bytes, st: Structure)
    requires Ascii(format) && Lower(format) == format && !(TIME <= format)
    ensures ParseFields(format) == Fields(st.fields) && !st.hasTime <==>
            AllKnown(st.fields) && |format| <= |Text(st)| + 1 && Text(st) <= format
    ensures ParseFields(format) != BadSlice
  {
    ParseFieldsIff(format, st.fields);
    if AllKnown(st.fields) && st.hasTime && Text(st) <= format {
      assert Text(st)[..2] == TIME;
    }
    assert AllKnown(st.fields) && !st.hasTime ==> Text(st) == FieldsText(st.fields);
  }

  lemma {:induction false} LastSegmentIsAscii(s: Bytes)
    requires Ascii(s)
    ensures Ascii(LastSegment(s))
  {
    if s != [] && s[|s| - 1] != '_' {
      LastSegmentIsAscii(s[..|s| - 1]);
    }
  }

  lemma LowerIsAscii(s: Bytes)
    requires Ascii(s)
    ensures Ascii(Lower(s))
  {
  }

  lemma LowerTwice(s: Bytes)
    ensures Lower(Lower(s)) == Lower(s)
  {}

  lemma {:induction false} LastSegmentOfConcat(prefix: Bytes, body: Bytes)
    requires prefix == [] || prefix[|prefix| - 1] == '_'
    requires '_' !in body
    ensures LastSegment(prefix + body) == body
    decreases |body|
  {
    if body == [] {
      assert prefix + body == prefix;
    } else {
      var n := |body| - 1;
      assert (prefix + body)[..|prefix + body| - 1] == prefix + body[..n];
      assert (prefix + body)[|prefix + body| - 1] == body[n] && body[n] in body;
      LastSegmentOfConcat(prefix, body[..n]);
      assert body == body[..n] + [body[n]];
    }
  }

  lemma {:induction false} FieldsTextIsPlain(fields: seq<Field>)
    requires AllKnown(fields)
    ensures forall i :: 0 <= i < |FieldsText(fields)| ==>
              FieldsText(fields)[i] != '_' && FieldsText(fields)[i] as int < 0x80
  {
    if fields != [] {
      assert Known(fields[0]);
      FieldsTextIsPlain(fields[1..]);
    }
  }

  /** A structure written in any letter case, after any prefix that ends in an underscore (or
      none), parses back to that structure. */
  lemma NameRoundTrip(prefix: Bytes, body: Bytes, st: Structure)
    requires AllKnown(st.fields) && IgnoringCase(body, Text(st))
    requires prefix == [] || prefix[|prefix| - 1] == '_'
    ensures ParseName(prefix + body) == Parsed(st)
  {
    hide ParseName, LastSegment, Text;
    LowerIff(body, Text(st));
    BodyIsPlain(body, st);
    LastSegmentOfConcat(prefix, body);
    LastSegmentOfConcat([], body);
    assert [] + body == body;
    ParseNameIff(body, st);
    SegmentDecides(prefix + body, body);
  }

  lemma SegmentDecides(name: Bytes, body: Bytes)
    requires LastSegment(name) == LastSegment(body)
    ensures ParseName(name) == ParseName(body)
  {}

  lemma BodyIsPlain(body: Bytes, st: Structure)
    requires AllKnown(st.fields) && Lower(body) == Text(st)
    ensures '_' !in body && Ascii(body)
  {
    FieldsTextIsPlain(st.fields);
    forall i | 0 <= i < |body| ensures body[i] != '_' && body[i] as int < 0x80 {
      assert Lower(body)[i] == LowerChar(body[i]) && Text(st)[i] == LowerChar(body[i]);
    }
  }

  /** The name in SEGGER's documentation: a time and four floats. */
  lemma DocumentedName()
    ensures var name := "JScope_T4F4F4F4F4";
            var float := Field(Float, 4);
            ParseName(name) == Parsed(Structure(true, [float, float, float, float]))
    ensures PacketSize(Structure(true, [Field(Float, 4), Field(Float, 4), Field(Float, 4), Field(Float, 4)])) == 20
  {
    var f := Field(Float, 4);
    var st := Structure(true, [f, f, f, f]);
    var prefix: Bytes, body: Bytes := "JScope_", "T4F4F4F4F4";
    var four: Bytes := "f4";
    TextOfFour(f);
    NameRoundTrip(prefix, body, st);
    assert prefix + body == "JScope_T4F4F4F4F4";
  }

  lemma TextOfFour(f: Field)
    requires f == Field(Float, 4)
    ensures Text(Structure(true, [f, f, f, f])) == "t4" + "f4" + "f4" + "f4" + "f4"
    ensures IgnoringCase("T4F4F4F4F4", Text(Structure(true, [f, f, f, f])))
    ensures PacketSize(Structure(true, [f, f, f, f])) == 20
  {
    var one, two, three, four := [f], [f, f], [f, f, f], [f, f, f, f];
    assert one[1..] == [] && two[1..] == one && three[1..] == two && four[1..] == three;
    var text: Bytes := "f4";
    assert FieldText(f) == text;
    assert FieldsText(one) == text;
    assert FieldsText(two) == text + text;
    assert FieldsText(three) == text + text + text;
    assert FieldsText(four) == text + text + text + text;
    assert FieldsSize(one) == 4;
    assert FieldsSize(two) == 8;
    assert FieldsSize(three) == 12;
    assert FieldsSize(four) == 16;
  }

  /** The parser as a loop that cuts two characters at a time off a moving slice. */
  method ParseScopePacketStructure(channelName: Bytes) returns (r: Parsed)
    ensures r == ParseName(channelName)
  {
    var toParse := Lower(LastSegment(channelName));
    var hasTime := TIME <= toParse;
    if hasTime {
      toParse := toParse[2..];
    }
    var fields: seq<Field> := [];
    ghost var all := ParseFields(toParse);
    assert all.Fields? ==> [] + all.fields == all.fields;
    while |toParse| >= 2
      invariant all == match ParseFields(toParse) {
                         case Fields(rest) => Fields(fields + rest)
                         case other => other
                       }
      decreases |toParse|
    {
      if |toParse| > 2 && Continuation(toParse[2]) {
        return Panicked;
      }
      ghost var rest := ParseFields(toParse[2..]);
      var field := ParseField(toParse[..2]);
      if field.None? {
        return NoMatch;
      }
      assert rest.Fields? ==> fields + ([field.value] + rest.fields) == fields + [field.value] + rest.fields;
      fields := fields + [field.value];
      toParse := toParse[2..];
    }
    assert fields + [] == fields;
    r := Parsed(Structure(hasTime, fields));
  }
}
