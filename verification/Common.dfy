/** Vocabulary shared by every component: optional and fallible results, bytes, and the
    number formats of the text protocols. */
module Common {

  datatype Option<+T> = None | Some(value: T)

  datatype Result<+T, +E> = Ok(value: T) | Err(error: E)

  // One octet, written as the character with that code so that protocol text can be
  // given as string literals.
  type byte = c: char | c as int < 256 witness '\0'
  type Bytes = seq<byte>

  type u32 = x: int | 0 <= x <= 0xFFFF_FFFF

  /** The value of `c` as a digit of the given radix (at most 16), upper or lower case. */
  function Digit(radix: nat, c: byte): (d: Option<nat>)
    ensures d.Some? ==> d.value < radix
  {
    var v :=
      if '0' <= c <= '9' then c as int - '0' as int
      else if 'a' <= c <= 'f' then c as int - 'a' as int + 10
      else if 'A' <= c <= 'F' then c as int - 'A' as int + 10
      else radix;
    if v < radix then Some(v) else None
  }

  const LOWER_DIGITS: Bytes := "0123456789abcdef"
  const UPPER_DIGITS: Bytes := "0123456789ABCDEF"

  /** The digits, spelled out. */
  lemma DigitIff(radix: nat, c: byte, d: nat)
    requires radix <= 16
    ensures Digit(radix, c) == Some(d) <==> d < radix && (c == LOWER_DIGITS[d] || c == UPPER_DIGITS[d])
  {}

  /** The number that a string of digits denotes; None when some character is not a digit. */
  function DigitsValue(radix: nat, s: Bytes): Option<nat> {
    if s == [] then Some(0)
    else
      match (DigitsValue(radix, s[..|s| - 1]), Digit(radix, s[|s| - 1]))
      case (Some(high), Some(low)) => Some(high * radix + low)
      case _ => None
  }

  /** Rust's unsigned `from_str_radix`: no empty input, one leading '+' is skipped when
      something follows it, and values above `limit` are an overflow error. */
  function ParseUnsigned(radix: nat, limit: nat, s: Bytes): (r: Option<nat>)
    ensures r.Some? ==> r.value <= limit
  {
    var digits := if |s| > 1 && s[0] == '+' then s[1..] else s;
    if digits == [] then None
    else
      match DigitsValue(radix, digits)
      case Some(v) => if v <= limit then Some(v) else None
      case None => None
  }

  function Power(base: nat, n: nat): nat {
    if n == 0 then 1 else Power(base, n - 1) * base
  }

  /** The number whose last digits are `low` and which has `high` in front of them. */
  function Positional(high: nat, power: nat, low: nat): nat {
    high * power + low
  }

  lemma PositionalOneMore(high: nat, power: nat, low: nat, base: nat, d: nat)
    ensures Positional(high, power, low) * base + d == Positional(high, power * base, low * base + d)
  {}

  lemma OneDigit(radix: nat, c: byte)
    ensures DigitsValue(radix, [c]) == Digit(radix, c) && DigitsValue(radix, []) == Some(0)
  {
    assert [c][..0] == [];
  }

  /** Strings of digits are positional numbers: what precedes `n` digits counts the n-th power of the
      radix. */
  lemma {:induction false} DigitsArePositional(radix: nat, a: Bytes, b: Bytes)
    ensures DigitsValue(radix, a + b) ==
            match (DigitsValue(radix, a), DigitsValue(radix, b)) {
              case (Some(x), Some(y)) => Some(Positional(x, Power(radix, |b|), y))
              case _ => None
            }
    decreases |b|
  {
    if b == [] {
      assert a + b == a;
    } else {
      hide DigitsValue, Digit, Positional;
      var n := |b| - 1;
      DigitsArePositional(radix, a, b[..n]);
      assert b == b[..n] + [b[n]] && a + b == (a + b[..n]) + [b[n]];
      OneMoreDigit(radix, b[..n], b[n]);
      OneMoreDigit(radix, a + b[..n], b[n]);
      if DigitsValue(radix, a).Some? && DigitsValue(radix, b[..n]).Some? {
        if Digit(radix, b[n]).Some? {
          PositionalOneMore(DigitsValue(radix, a).value, Power(radix, n), DigitsValue(radix, b[..n]).value, radix,
                            Digit(radix, b[n]).value);
        }
      }
    }
  }

  lemma OneMoreDigit(radix: nat, s: Bytes, c: byte)
    ensures DigitsValue(radix, s + [c]) ==
            if DigitsValue(radix, s).None? || Digit(radix, c).None? then None
            else Some(DigitsValue(radix, s).value * radix + Digit(radix, c).value)
  {
    assert (s + [c])[..|s|] == s;
  }

  /** Exactly the strings that are accepted: digits, at least one, perhaps behind one plus sign, of a
      number up to the limit. */
  lemma ParseUnsignedIff(radix: nat, limit: nat, s: Bytes, v: nat)
    requires radix <= 16
    ensures ParseUnsigned(radix, limit, s) == Some(v) <==>
            v <= limit && exists digits: Bytes ::
              digits != [] && (s == digits || s == "+" + digits) && DigitsValue(radix, digits) == Some(v)
  {
    if ParseUnsigned(radix, limit, s) == Some(v) {
      var digits := if |s| > 1 && s[0] == '+' then s[1..] else s;
      assert s == digits || s == "+" + digits;
    }
    forall digits: Bytes
      | digits != [] && (s == digits || s == "+" + digits) && DigitsValue(radix, digits) == Some(v) && v <= limit
      ensures ParseUnsigned(radix, limit, s) == Some(v)
    {
      if s == digits {
        if s[0] == '+' {
          LeadingPlus(radix, s);
        }
      } else {
        assert s[1..] == digits;
      }
    }
  }

  lemma PlusIsNoDigit(radix: nat)
    requires radix <= 16
    ensures Digit(radix, '+').None?
  {}

  lemma {:induction false} LeadingPlus(radix: nat, s: Bytes)
    requires radix <= 16 && s != [] && s[0] == '+'
    ensures DigitsValue(radix, s).None?
  {
    if |s| == 1 {
      PlusIsNoDigit(radix);
    } else {
      LeadingPlus(radix, s[..|s| - 1]);
    }
  }

  function DigitChar(d: nat): (c: byte)
    requires d < 16
    ensures Digit(16, c) == Some(d)
    ensures d < 10 ==> Digit(10, c) == Some(d)
    ensures c != '+' && c != '#' && c != ':' && c != ' '
  {
    if d < 10 then ('0' as int + d) as char else ('a' as int + d - 10) as char
  }

  function Pow16(n: nat): (p: nat)
    ensures p > 0
  {
    if n == 0 then 1 else 16 * Pow16(n - 1)
  }

  /** `{:0Wx}`: lower-case hexadecimal, zero padded to `width`. */
  function HexFixed(width: nat, n: nat): (s: Bytes)
    requires n < Pow16(width)
    ensures |s| == width
  {
    if width == 0 then [] else HexFixed(width - 1, n / 16) + [DigitChar(n % 16)]
  }

  /** Fixed-width hexadecimal reads back as the number it was printed from. */
  lemma {:induction false} HexFixedValue(width: nat, n: nat)
    requires n < Pow16(width)
    ensures DigitsValue(16, HexFixed(width, n)) == Some(n)
    ensures forall i :: 0 <= i < width ==> HexFixed(width, n)[i] != '+' && HexFixed(width, n)[i] != '#'
  {
    if width > 0 {
      HexFixedValue(width - 1, n / 16);
      var s := HexFixed(width, n);
      assert s[..width - 1] == HexFixed(width - 1, n / 16);
    }
  }

  lemma DigitCharIs(d: nat)
    requires d < 16
    ensures DigitChar(d) == LOWER_DIGITS[d]
  {}

  lemma {:induction false} HexFixedDigits(width: nat, n: nat)
    requires n < Pow16(width)
    ensures forall i :: 0 <= i < width ==> HexFixed(width, n)[i] in LOWER_DIGITS
  {
    if width > 0 {
      HexFixedDigits(width - 1, n / 16);
      DigitCharIs(n % 16);
    }
  }

  lemma HexFixedTwo(n: nat)
    requires n < 256 && Pow16(2) == 256
    ensures HexFixed(2, n) == [LOWER_DIGITS[n / 16], LOWER_DIGITS[n % 16]]
  {
    assert HexFixed(0, n / 16 / 16) == [];
    assert HexFixed(1, n / 16) == [] + [DigitChar(n / 16)];
    DigitCharIs(n / 16);
    DigitCharIs(n % 16);
  }

  lemma HexFixedParses(width: nat, n: nat, limit: nat)
    requires width > 0 && n < Pow16(width) && n <= limit
    ensures ParseUnsigned(16, limit, HexFixed(width, n)) == Some(n)
  {
    HexFixedValue(width, n);
  }

  // ---- searching and joining ----

  /** Position of the first occurrence of `c`. */
  function IndexOf(c: byte, s: Bytes): (r: Option<nat>)
    ensures r.Some? ==> r.value < |s| && s[r.value] == c && c !in s[..r.value]
    ensures r.None? ==> c !in s
  {
    if s == [] then None
    else if s[0] == c then Some(0)
    else
      match IndexOf(c, s[1..])
      case Some(i) => Some(i + 1)
      case None => None
  }

  lemma FirstIndex(c: byte, s: Bytes, i: nat)
    requires i < |s| && s[i] == c && c !in s[..i]
    ensures IndexOf(c, s) == Some(i)
  {
    var r := IndexOf(c, s);
    assert r.Some?;
  }

  /** A first occurrence stays the first when more follows. */
  lemma IndexStable(c: byte, s: Bytes, t: Bytes)
    requires IndexOf(c, s).Some?
    ensures IndexOf(c, s + t) == IndexOf(c, s)
  {
    var i := IndexOf(c, s).value;
    SliceOfConcat(s, t, 0, i);
    assert (s + t)[..i] == s[..i];
    FirstIndex(c, s + t, i);
  }

  /** The pieces, one after the other. */
  function Flatten(pieces: seq<Bytes>): Bytes {
    if pieces == [] then [] else Flatten(pieces[..|pieces| - 1]) + pieces[|pieces| - 1]
  }

  lemma {:induction false} FlattenAppend(a: seq<Bytes>, b: seq<Bytes>)
    ensures Flatten(a + b) == Flatten(a) + Flatten(b)
  {
    if b == [] {
      assert a + b == a;
      assert Flatten(a) + [] == Flatten(a);
    } else {
      var n := |b| - 1;
      assert (a + b)[..|a + b| - 1] == a + b[..n];
      FlattenAppend(a, b[..n]);
      Associative(Flatten(a), Flatten(b[..n]), b[n]);
    }
  }

  // ---- little-endian numbers ----

  function LittleEndian(bytes: Bytes): (n: nat) {
    if bytes == [] then 0 else bytes[0] as int + 0x100 * LittleEndian(bytes[1..])
  }

  /** One, two and four bytes, spelled out. */
  lemma LittleEndianBytes(bytes: Bytes)
    ensures |bytes| == 1 ==> LittleEndian(bytes) == bytes[0] as int
    ensures |bytes| == 2 ==> LittleEndian(bytes) == bytes[0] as int + 0x100 * bytes[1] as int
    ensures |bytes| == 4 ==> LittleEndian(bytes) == LittleEndianWord(bytes[0], bytes[1], bytes[2], bytes[3])
  {
    if |bytes| > 0 {
      var b := bytes[1..];
      if |b| > 0 {
        var c := b[1..];
        if |c| == 2 {
          var d := c[1..];
          assert d[1..] == [] && LittleEndian(d) == d[0] as int;
          assert LittleEndian(c) == c[0] as int + 0x100 * LittleEndian(d);
        }
        assert LittleEndian(b) == b[0] as int + 0x100 * LittleEndian(c);
      }
      assert LittleEndian(bytes) == bytes[0] as int + 0x100 * LittleEndian(b);
    }
  }

  /** The number in four bytes, least significant first. */
  function LittleEndianWord(a: byte, b: byte, c: byte, d: byte): nat {
    a as int + 0x100 * b as int + 0x1_0000 * c as int + 0x100_0000 * d as int
  }

  /** The `width` low-order bytes of `n`, least significant first. */
  function EncodeLittleEndian(width: nat, n: nat): (bytes: Bytes)
    ensures |bytes| == width
  {
    if width == 0 then [] else [(n % 0x100) as char] + EncodeLittleEndian(width - 1, n / 0x100)
  }

  function Pow256(n: nat): (p: nat)
    ensures p > 0
  {
    if n == 0 then 1 else 0x100 * Pow256(n - 1)
  }

  lemma PowersOf256()
    ensures Pow256(1) == 0x100 && Pow256(2) == 0x1_0000 && Pow256(4) == 0x1_0000_0000
  {
    assert Pow256(3) == 0x100 * Pow256(2);
  }

  /** Reading undoes writing for every number that fits. */
  lemma {:induction false} DecodeLittleEndian(width: nat, n: nat)
    requires n < Pow256(width)
    ensures LittleEndian(EncodeLittleEndian(width, n)) == n
  {
    if width > 0 {
      DecodeLittleEndian(width - 1, n / 0x100);
    }
  }

  /** Writing undoes reading. */
  lemma {:induction false} ReencodeLittleEndian(bytes: Bytes)
    ensures LittleEndian(bytes) < Pow256(|bytes|)
    ensures EncodeLittleEndian(|bytes|, LittleEndian(bytes)) == bytes
  {
    if bytes != [] {
      var low, high := bytes[0] as int, LittleEndian(bytes[1..]);
      ReencodeLittleEndian(bytes[1..]);
      assert (low + 0x100 * high) % 0x100 == low && (low + 0x100 * high) / 0x100 == high;
      assert bytes == [bytes[0]] + bytes[1..];
    }
  }

  // ---- sequence facts that proofs name instead of leaving them to be searched for ----

  lemma DropAppend<T>(s: seq<T>, t: seq<T>, n: nat)
    requires n <= |s|
    ensures (s + t)[n..] == s[n..] + t
  {}

  lemma RestOfConcat<T>(s: seq<T>, t: seq<T>)
    requires s != []
    ensures (s + t)[0] == s[0] && (s + t)[1..] == s[1..] + t
  {}

  lemma SliceOfConcat<T>(s: seq<T>, t: seq<T>, a: nat, b: nat)
    requires a <= b <= |s|
    ensures (s + t)[a..b] == s[a..b]
  {}

  lemma Associative<T>(a: seq<T>, b: seq<T>, c: seq<T>)
    ensures (a + b) + c == a + (b + c)
  {}
}
