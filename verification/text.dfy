/** Ruby string operations the connector relies on, stated over Dafny strings.

    A Ruby string is a sequence of bytes; here a `string` stands for one when
    every character is below 256, and `Bytes` is the raw form written to the
    transport.  Only the behaviour the connector depends on is modelled:
    `Integer()` parsing, decimal rendering, the split on commas with
    surrounding whitespace, the awk-style `split(' ', 4)`, and the line-anchored `/^(\w+)$/` match.
 */
module Text {
  import opened Wrappers

  type byte = bv8
  type Bytes = seq<byte>

  /** Ruby's `\s`, which is also the separator set of `split(' ')`. */
  predicate IsSpace(c: char) {
    c == ' ' || c == '\t' || c == '\n' || c == '\U{000B}' || c == '\U{000C}' || c == '\r'
  }

  /** Ruby's `\w`: ASCII letters, digits and underscore. */
  predicate IsWordChar(c: char) {
    ('a' <= c <= 'z') || ('A' <= c <= 'Z') || ('0' <= c <= '9') || c == '_'
  }

  predicate IsWord(s: string) {
    |s| > 0 && forall i :: 0 <= i < |s| ==> IsWordChar(s[i])
  }

  predicate NoSpace(s: string) {
    forall i :: 0 <= i < |s| ==> !IsSpace(s[i])
  }

  // ---------------------------------------------------------------------
  // Bytes

  /** The byte holding a value below 16. */
  function Nibble(k: int): (b: byte)
    requires 0 <= k < 16
    ensures b as int == k && b <= 15
  {
    if k == 0 then 0x0 else if k == 1 then 0x1 else if k == 2 then 0x2 else if k == 3 then 0x3
    else if k == 4 then 0x4 else if k == 5 then 0x5 else if k == 6 then 0x6 else if k == 7 then 0x7
    else if k == 8 then 0x8 else if k == 9 then 0x9 else if k == 10 then 0xA else if k == 11 then 0xB
    else if k == 12 then 0xC else if k == 13 then 0xD else if k == 14 then 0xE else 0xF
  }

  /** Below 16, the low byte is the nibble itself. */
  lemma LowByteOfNibble(n: int)
    requires 0 <= n < 16
    ensures LowByte(n) == Nibble(n) && LowByte(n) <= 15
  {
    ModOfSmall(n, 16);
    ModOfSmall(n, 256);
    assert n / 16 == 0;
    assert Nibble(0) == 0;
  }

  /** A value below the modulus is its own remainder. */
  lemma ModOfSmall(v: int, m: int)
    requires 0 <= v < m
    ensures v % m == v
  {
  }

  lemma NibblesCombine(hi: byte, lo: byte)
    requires hi < 16 && lo < 16
    ensures ((hi << 4) | lo) as int == 16 * (hi as int) + lo as int
  {
  }

  /** The two's-complement low byte of an integer: what `pack` keeps of a
      value too wide for its field, and what an Integer contributes when it
      is combined with a byte. */
  function LowByte(n: int): (b: byte)
    ensures b as int == n % 256
  {
    var m := n % 256;
    NibblesCombine(Nibble(m / 16), Nibble(m % 16));
    (Nibble(m / 16) << 4) | Nibble(m % 16)
  }

  /** The bytes of a string whose characters stand for bytes. */
  function ToBytes(s: string): (b: Bytes)
    ensures |b| == |s|
    ensures forall i :: 0 <= i < |s| && s[i] as int < 256 ==> b[i] as int == s[i] as int
  {
    var b := seq(|s|, i requires 0 <= i < |s| => LowByte(s[i] as int));
    ByteValues(s, b);
    b
  }

  lemma ByteValues(s: string, b: Bytes)
    requires |b| == |s| && forall i :: 0 <= i < |s| ==> b[i] as int == (s[i] as int) % 256
    ensures forall i :: 0 <= i < |s| && s[i] as int < 256 ==> b[i] as int == s[i] as int
  {
    forall i | 0 <= i < |s| && s[i] as int < 256
      ensures b[i] as int == s[i] as int
    {
      ModOfSmall(s[i] as int, 256);
    }
  }

  function FromBytes(b: Bytes): (s: string)
    ensures |s| == |b|
    ensures forall i :: 0 <= i < |b| ==> s[i] as int == b[i] as int
  {
    seq(|b|, i requires 0 <= i < |b| => (b[i] as int) as char)
  }

  lemma ToBytesConcat(a: string, b: string)
    ensures ToBytes(a + b) == ToBytes(a) + ToBytes(b)
  {
    assert forall i :: 0 <= i < |a + b| ==> ToBytes(a + b)[i] == (ToBytes(a) + ToBytes(b))[i];
  }

  /** The bytes of a text begin with the bytes of its first part and end
      with the bytes of its last part. */
  lemma ToBytesFramed(a: string, m: string, z: string)
    ensures var t := ToBytes(a + m + z);
      |t| >= |a| + |z| && t[..|a|] == ToBytes(a) && t[|t| - |z|..] == ToBytes(z)
  {
    ToBytesConcat(a, m);
    ToBytesConcat(a + m, z);
  }

  /** Bytes with the same value are the same byte. */
  lemma SameByte(a: byte, b: byte)
    requires a as int == b as int
    ensures a == b
  {
  }

  lemma LowByteOfByte(c: byte)
    ensures LowByte(c as int) == c
  {
    ModOfSmall(c as int, 256);
    SameByte(LowByte(c as int), c);
  }

  lemma FromBytesToBytes(b: Bytes)
    ensures ToBytes(FromBytes(b)) == b
  {
    forall i | 0 <= i < |b|
      ensures ToBytes(FromBytes(b))[i] == b[i]
    {
      LowByteOfByte(b[i]);
    }
  }

  predicate IsByteString(s: string) {
    forall i :: 0 <= i < |s| ==> s[i] as int < 256
  }

  lemma ToBytesFromBytes(s: string)
    requires IsByteString(s)
    ensures FromBytes(ToBytes(s)) == s
  {
    assert forall i :: 0 <= i < |s| ==> FromBytes(ToBytes(s))[i] == s[i];
  }

  // ---------------------------------------------------------------------
  // Decimal rendering (`Integer#to_s`, `"%d"`)

  predicate IsDigit(c: char) { '0' <= c <= '9' }

  function DigitChar(d: nat): (c: char)
    requires d < 10
    ensures IsDigit(c) && c as int - '0' as int == d
  {
    ('0' as int + d) as char
  }

  /** The decimal digits of `n`, without leading zeros. */
  function NatToString(n: nat): (s: string)
    ensures |s| >= 1
    ensures forall i :: 0 <= i < |s| ==> IsDigit(s[i])
    ensures s[0] == '0' ==> n == 0 && |s| == 1
  {
    if n < 10 then [DigitChar(n)] else NatToString(n / 10) + [DigitChar(n % 10)]
  }

  function IntToString(i: int): (s: string)
    ensures |s| >= 1
  {
    if i < 0 then "-" + NatToString(-i) else NatToString(i)
  }

  /** A decimal rendering is one word: it holds no whitespace. */
  lemma IntToStringNoSpace(n: int)
    ensures IntToString(n) != "" && NoSpace(IntToString(n))
  {
    var d := NatToString(if n < 0 then -n else n);
    assert forall i :: 0 <= i < |d| ==> IsDigit(d[i]);
  }

  // ---------------------------------------------------------------------
  // `Integer(String)`

  /** Value of a hexadecimal digit, or 16 for any other character. */
  function DigitValue(c: char): (v: nat)
    ensures v <= 16
  {
    if '0' <= c <= '9' then c as int - '0' as int
    else if 'a' <= c <= 'f' then c as int - 'a' as int + 10
    else if 'A' <= c <= 'F' then c as int - 'A' as int + 10
    else 16
  }

  predicate AllDigitsIn(s: string, base: nat) {
    forall i :: 0 <= i < |s| ==> DigitValue(s[i]) < base
  }

  /** The value of a digit string read in `base`, most significant digit first. */
  function ValueIn(s: string, base: nat): nat
    requires AllDigitsIn(s, base)
  {
    if s == [] then 0 else ValueIn(s[..|s| - 1], base) * base + DigitValue(s[|s| - 1])
  }

  function StripLeft(s: string): (t: string)
    ensures |t| <= |s|
    ensures t != [] ==> !IsSpace(t[0])
  {
    if s != [] && IsSpace(s[0]) then StripLeft(s[1..]) else s
  }

  function StripRight(s: string): (t: string)
    ensures |t| <= |s|
    ensures t != [] ==> !IsSpace(t[|t| - 1])
  {
    if s != [] && IsSpace(s[|s| - 1]) then StripRight(s[..|s| - 1]) else s
  }

  /** The radix prefix Ruby's `Integer()` honours: 0x, 0b, 0o, 0d, or a bare
      leading 0 for octal.  Returns the base and the digits after the prefix
      (a bare leading 0 is kept: it adds nothing to the value, and an
      underscore may follow it, as in "0_17"). */
  function Radix(u: string): (r: (nat, string))
    ensures r.0 in {2, 8, 10, 16} && |r.1| <= |u|
  {
    if |u| >= 2 && u[0] == '0' && (u[1] == 'x' || u[1] == 'X') then (16, u[2..])
    else if |u| >= 2 && u[0] == '0' && (u[1] == 'b' || u[1] == 'B') then (2, u[2..])
    else if |u| >= 2 && u[0] == '0' && (u[1] == 'o' || u[1] == 'O') then (8, u[2..])
    else if |u| >= 2 && u[0] == '0' && (u[1] == 'd' || u[1] == 'D') then (10, u[2..])
    else if |u| >= 2 && u[0] == '0' then (8, u)
    else (10, u)
  }

  /** The characters of `s` other than underscores, in order. */
  function DropUnderscores(s: string): (d: string)
    ensures |d| <= |s|
    ensures forall i :: 0 <= i < |d| ==> d[i] != '_'
  {
    if s == [] then [] else (if s[0] == '_' then [] else [s[0]]) + DropUnderscores(s[1..])
  }

  /** A string without underscores loses nothing to `DropUnderscores`. */
  lemma {:induction false} DropNoUnderscores(s: string)
    requires forall i :: 0 <= i < |s| ==> s[i] != '_'
    ensures DropUnderscores(s) == s
  {
    if s != [] {
      DropNoUnderscores(s[1..]);
    }
  }

  /** Underscores only between two other characters, never two in a row:
      `Integer()` lets single underscores separate digits. */
  predicate WellSeparated(s: string) {
    && |s| > 0 && s[0] != '_' && s[|s| - 1] != '_'
    && forall i, j :: 0 <= i < |s| - 1 && j == i + 1 ==> !(s[i] == '_' && s[j] == '_')
  }

  /** An unsigned number with an optional radix prefix, or None.  The digits
      may be separated by single underscores. */
  function ParseUnsigned(u: string): (r: Option<nat>)
    ensures r.Some? ==> |u| > 0
  {
    var (base, digits) := Radix(u);
    var d := DropUnderscores(digits);
    if WellSeparated(digits) && AllDigitsIn(d, base) then Some(ValueIn(d, base)) else None
  }

  /** Ruby's `Integer(str)`: optional surrounding whitespace, an optional sign,
      an optional radix prefix and at least one digit of that radix; anything
      else raises ArgumentError. */
  function ParseInteger(s: string): (r: Result<int>)
    ensures r.Err? ==> r.error.kind == ArgumentError
  {
    match ParseSigned(StripRight(StripLeft(s)))
    case Some(v) => Ok(v)
    case None => Fail(ArgumentError, "invalid value for Integer(): \"" + s + "\"")
  }

  /** A number with an optional sign, no surrounding whitespace. */
  function ParseSigned(t: string): (r: Option<int>)
    ensures r.Some? ==> |t| > 0
  {
    var neg := |t| > 0 && t[0] == '-';
    var u := if |t| > 0 && (t[0] == '-' || t[0] == '+') then t[1..] else t;
    match ParseUnsigned(u)
    case Some(v) => Some(if neg then -(v as int) else v as int)
    case None => None
  }

  lemma {:induction false} ValueOfNatToString(n: nat)
    ensures AllDigitsIn(NatToString(n), 10)
    ensures ValueIn(NatToString(n), 10) == n
  {
    var s := NatToString(n);
    if n >= 10 {
      ValueOfNatToString(n / 10);
      var p := NatToString(n / 10);
      assert s[..|s| - 1] == p;
    }
  }

  lemma ParseUnsignedOfNatToString(n: nat)
    ensures ParseUnsigned(NatToString(n)) == Some(n)
  {
    var d := NatToString(n);
    ValueOfNatToString(n);
    if |d| >= 2 {
      assert d[0] != '0';
    }
    assert Radix(d) == (10, d);
    DropNoUnderscores(d);
  }

  lemma {:induction false} DropUnderscoresConcat(x: string, y: string)
    ensures DropUnderscores(x + y) == DropUnderscores(x) + DropUnderscores(y)
  {
    if x == [] {
      assert x + y == y;
    } else {
      assert (x + y)[0] == x[0] && (x + y)[1..] == x[1..] + y;
      DropUnderscoresConcat(x[1..], y);
    }
  }

  predicate IsDecimal(s: string) { forall i :: 0 <= i < |s| ==> IsDigit(s[i]) }

  /** A decimal-only string keeps the radix of its first two characters
      whatever follows them. */
  lemma RadixOfDecimal(u: string)
    requires |u| >= 2 && IsDigit(u[0]) && (IsDigit(u[1]) || u[1] == '_')
    ensures Radix(u) == (if u[0] == '0' then 8 else 10, u)
  {
  }

  /** Joining two runs of decimal digits with one underscore gives a
      well-separated string. */
  lemma JoinedSeparated(a: string, b: string)
    requires a != [] && b != [] && IsDecimal(a) && IsDecimal(b)
    ensures WellSeparated(a + "_" + b)
  {
    var u := a + "_" + b;
    forall i, j | 0 <= i && j == i + 1 && j < |u|
      ensures !(u[i] == '_' && u[j] == '_')
    {
      if i < |a| {
        assert u[i] == a[i] && IsDigit(a[i]);
      } else {
        assert u[j] == b[i - |a|] && IsDigit(b[i - |a|]);
      }
    }
  }

  /** ... and its digits are the two runs. */
  lemma JoinedDigits(a: string, b: string)
    requires IsDecimal(a) && IsDecimal(b)
    ensures DropUnderscores(a + "_" + b) == a + b
  {
    DropUnderscoresConcat(a + "_", b);
    DropUnderscoresConcat(a, "_");
    DropNoUnderscores(a);
    DropNoUnderscores(b);
    assert DropUnderscores("_") == [];
  }

  /** Joining two runs of decimal digits, with or without an underscore,
      keeps the radix the first run decides. */
  lemma RadixOfJoin(a: string, b: string)
    requires a != [] && b != [] && IsDecimal(a) && IsDecimal(b)
    ensures var base := if a[0] == '0' then 8 else 10;
      Radix(a + "_" + b) == (base, a + "_" + b) && Radix(a + b) == (base, a + b)
  {
    var u, v := a + "_" + b, a + b;
    assert u[0] == a[0] && v[0] == a[0];
    assert u[1] == (if |a| == 1 then '_' else a[1]);
    assert v[1] == (if |a| == 1 then b[0] else a[1]);
    RadixOfDecimal(u);
    RadixOfDecimal(v);
  }

  lemma DecimalJoin(a: string, b: string)
    requires IsDecimal(a) && IsDecimal(b)
    ensures IsDecimal(a + b)
  {
    var v := a + b;
    forall i | 0 <= i < |v|
      ensures IsDigit(v[i])
    {
      if i >= |a| { assert v[i] == b[i - |a|]; } else { assert v[i] == a[i]; }
    }
  }

  /** A single underscore between two runs of decimal digits changes
      nothing: `Integer( "1_000" )` is `Integer( "1000" )`. */
  lemma UnderscoreSeparates(a: string, b: string)
    requires a != [] && b != [] && IsDecimal(a) && IsDecimal(b)
    ensures ParseUnsigned(a + "_" + b) == ParseUnsigned(a + b)
  {
    var u, v := a + "_" + b, a + b;
    RadixOfJoin(a, b);
    JoinedSeparated(a, b);
    JoinedDigits(a, b);
    DecimalJoin(a, b);
    DropNoUnderscores(v);
    assert |v| > 0 && v[0] != '_' && v[|v| - 1] != '_';
    assert WellSeparated(v);
  }

  /** `Integer( "1_000" )` is 1000. */
  lemma SeparatedThousand()
    ensures ParseInteger("1_000") == Ok(1000)
  {
    UnderscoreSeparates("1", "000");
    assert "1" + "_" + "000" == "1_000" && "1" + "000" == "1000";
    assert NatToString(1000) == "1000";
    ParseUnsignedOfNatToString(1000);
    assert ParseUnsigned("1_000") == Some(1000);
    assert ParseSigned("1_000") == Some(1000);
    StripNothing("1_000");
  }

  /** An underscore that does not sit between two digits, or two in a row,
      makes the input invalid. */
  lemma UnderscoreMisplaced(a: string, b: string)
    requires a != [] && b != [] && IsDecimal(a) && IsDecimal(b)
    ensures ParseUnsigned(a + "__" + b).None?
    ensures ParseUnsigned(a + "_").None?
    ensures ParseUnsigned("_" + a).None?
  {
    var u := a + "__" + b;
    RadixOfDecimal(u);
    assert u[|a|] == '_' && u[|a| + 1] == '_';
    var w := a + "_";
    if |a| == 1 {
      assert Radix(w) == (if a[0] == '0' then 8 else 10, w);
    } else {
      RadixOfDecimal(w);
    }
    assert w[|w| - 1] == '_';
    assert Radix("_" + a).1 == "_" + a;
  }

  lemma StripNothing(s: string)
    requires s != [] && !IsSpace(s[0]) && !IsSpace(s[|s| - 1])
    ensures StripRight(StripLeft(s)) == s
  {
  }

  /** `Integer(i.to_s) == i`: decimal rendering and `Integer()` are inverse. */
  lemma ParseIntegerOfIntToString(i: int)
    ensures ParseInteger(IntToString(i)) == Ok(i)
  {
    var n: nat := if i < 0 then -i else i;
    var d := NatToString(n);
    ParseUnsignedOfNatToString(n);
    var s := IntToString(i);
    assert IsDigit(d[0]) && IsDigit(d[|d| - 1]);
    if i < 0 {
      assert s[0] == '-' && s[|s| - 1] == d[|d| - 1];
      assert s[1..] == d;
    }
    assert ParseSigned(s) == Some(i);
    StripNothing(s);
  }

  // ---------------------------------------------------------------------
  // `"%03d"`

  function ZeroRun(k: nat): (z: string)
    ensures |z| == k && forall i :: 0 <= i < k ==> z[i] == '0'
  {
    seq(k, _ => '0')
  }

  /** Left-pads a digit string with zeros to `width` characters. */
  function ZeroPad(s: string, width: nat): (r: string)
    ensures |r| == if |s| >= width then |s| else width
  {
    if |s| >= width then s else ZeroRun(width - |s|) + s
  }

  /** `"%03d" % n`: at least three characters, the sign counting as one. */
  function Decimal3(n: int): (s: string)
    ensures 0 <= n <= 999 ==> |s| == 3 && AllDigitsIn(s, 10) && ValueIn(s, 10) == n
  {
    if n < 0 then "-" + ZeroPad(NatToString(-n), 2)
    else
      ValueOfNatToString(n);
      ValueOfZeroPad(NatToString(n), 3);
      assert n <= 999 ==> |NatToString(n)| <= 3 by {
        if n <= 999 && n >= 10 {
          assert |NatToString(n / 10)| <= 2;
        }
      }
      ZeroPad(NatToString(n), 3)
  }

  lemma {:induction false} ZeroRunValue(k: nat)
    ensures AllDigitsIn(ZeroRun(k), 10) && ValueIn(ZeroRun(k), 10) == 0
  {
    if k > 0 {
      ZeroRunValue(k - 1);
      assert ZeroRun(k)[..k - 1] == ZeroRun(k - 1);
    }
  }

  /** Leading zeros do not change the value of a digit string. */
  lemma {:induction false} LeadingZeros(k: nat, s: string)
    requires AllDigitsIn(s, 10)
    ensures AllDigitsIn(ZeroRun(k) + s, 10) && ValueIn(ZeroRun(k) + s, 10) == ValueIn(s, 10)
    decreases |s|
  {
    var t := ZeroRun(k) + s;
    if s == [] {
      assert t == ZeroRun(k);
      ZeroRunValue(k);
    } else {
      assert t[..|t| - 1] == ZeroRun(k) + s[..|s| - 1];
      assert t[|t| - 1] == s[|s| - 1];
      LeadingZeros(k, s[..|s| - 1]);
    }
  }

  lemma ValueOfZeroPad(s: string, width: nat)
    requires AllDigitsIn(s, 10)
    ensures AllDigitsIn(ZeroPad(s, width), 10) && ValueIn(ZeroPad(s, width), 10) == ValueIn(s, 10)
  {
    if |s| < width {
      LeadingZeros(width - |s|, s);
    }
  }

  // ---------------------------------------------------------------------
  // Splitting on commas with surrounding whitespace, and `Array#join`

  /** Position of the first `x` in `s`, or |s| when there is none. */
  function IndexOf<T(==)>(s: seq<T>, x: T): (k: nat)
    ensures k <= |s|
    ensures k < |s| ==> s[k] == x
    ensures forall j :: 0 <= j < k ==> s[j] != x
  {
    if s == [] then 0 else if s[0] == x then 0 else 1 + IndexOf(s[1..], x)
  }

  /** A space-free text has no first space. */
  lemma IndexOfNoSpace(w: string)
    requires NoSpace(w)
    ensures IndexOf(w, ' ') == |w|
  {
  }

  /** The first space of a text that starts with a space-free word followed
      by a space is right after that word. */
  lemma IndexOfAfter(m: string, d: string)
    requires NoSpace(d) && |d| < |m| && m[..|d|] == d && m[|d|] == ' '
    ensures IndexOf(m, ' ') == |d|
  {
    assert forall j :: 0 <= j < |d| ==> m[j] == d[j];
    if IndexOf(m, ' ') < |d| {
      assert IsSpace(m[IndexOf(m, ' ')]);
    }
  }

  /** Start of the run of whitespace that ends just before position k. */
  function SpaceRunStart(s: string, k: nat): (p: nat)
    requires k <= |s|
    ensures p <= k
    ensures forall j :: p <= j < k ==> IsSpace(s[j])
    ensures p == 0 || !IsSpace(s[p - 1])
  {
    if k == 0 || !IsSpace(s[k - 1]) then k else SpaceRunStart(s, k - 1)
  }

  /** The fields between separators, trailing empty fields included. */
  function CommaFields(s: string): (r: seq<string>)
    ensures |r| >= 1
    decreases |s|
  {
    var c := IndexOf(s, ',');
    if c == |s| then [s]
    else [s[..SpaceRunStart(s, c)]] + CommaFields(StripLeft(s[c + 1..]))
  }

  function DropTrailingEmpty(f: seq<string>): (r: seq<string>)
    ensures |r| <= |f| && r == f[..|r|]
    ensures r != [] ==> r[|r| - 1] != ""
    ensures forall j :: |r| <= j < |f| ==> f[j] == ""
  {
    if f != [] && f[|f| - 1] == "" then DropTrailingEmpty(f[..|f| - 1]) else f
  }

  /** Ruby's split on a comma with optional whitespace around it: the empty string gives no fields and
      trailing empty fields are removed. */
  function SplitOnCommas(s: string): (r: seq<string>)
    ensures forall i :: 0 <= i < |r| ==> ',' !in r[i]
  {
    if s == "" then [] else
      CommaFieldsHaveNoComma(s);
      DropTrailingEmpty(CommaFields(s))
  }

  lemma {:induction false} CommaFieldsHaveNoComma(s: string)
    ensures forall i :: 0 <= i < |CommaFields(s)| ==> ',' !in CommaFields(s)[i]
    decreases |s|
  {
    var c := IndexOf(s, ',');
    if c < |s| {
      CommaFieldsHaveNoComma(StripLeft(s[c + 1..]));
    }
  }

  function Join(parts: seq<string>, sep: string): (r: string)
  {
    if parts == [] then ""
    else if |parts| == 1 then parts[0]
    else parts[0] + sep + Join(parts[1..], sep)
  }

  /** A value that survives a `join(', ')` and comma-split round trip. */
  predicate IsListItem(p: string) {
    p != "" && ',' !in p && !IsSpace(p[0]) && !IsSpace(p[|p| - 1])
  }

  /** One step of the comma split: an item followed by ", " is cut off. */
  lemma CommaFieldsStep(p: string, rest: string)
    requires IsListItem(p)
    requires rest != [] && !IsSpace(rest[0])
    ensures CommaFields(p + ", " + rest) == [p] + CommaFields(rest)
  {
    var s := p + ", " + rest;
    assert IndexOf(s, ',') == |p| by {
      assert s[|p|] == ',';
      assert forall j :: 0 <= j < |p| ==> s[j] == p[j];
    }
    assert SpaceRunStart(s, |p|) == |p| by {
      assert s[|p| - 1] == p[|p| - 1];
    }
    assert StripLeft(s[|p| + 1..]) == rest by {
      assert s[|p| + 1..] == " " + rest;
      assert (" " + rest)[1..] == rest;
    }
    assert s[..|p|] == p;
    CommaFieldsUnfold(s);
  }

  lemma CommaFieldsUnfold(s: string)
    requires IndexOf(s, ',') < |s|
    ensures CommaFields(s)
      == [s[..SpaceRunStart(s, IndexOf(s, ','))]] + CommaFields(StripLeft(s[IndexOf(s, ',') + 1..]))
  {
  }

  lemma {:induction false} CommaFieldsOfJoin(ps: seq<string>)
    requires |ps| >= 1
    requires forall i :: 0 <= i < |ps| ==> IsListItem(ps[i])
    ensures CommaFields(Join(ps, ", ")) == ps
  {
    var p := ps[0];
    assert IsListItem(p);
    if |ps| == 1 {
      assert IndexOf(p, ',') == |p|;
    } else {
      var tail := ps[1..];
      var rest := Join(tail, ", ");
      assert Join(ps, ", ") == p + ", " + rest;
      assert CommaFields(rest) == tail by {
        CommaFieldsOfJoin(tail);
      }
      assert CommaFields(p + ", " + rest) == [p] + CommaFields(rest) by {
        JoinStartsWithFirst(tail);
        CommaFieldsStep(p, rest);
      }
      assert ps == [p] + tail;
    }
  }

  lemma {:induction false} JoinStartsWithFirst(ps: seq<string>)
    requires |ps| >= 1
    requires forall i :: 0 <= i < |ps| ==> IsListItem(ps[i])
    ensures var j := Join(ps, ", "); |j| > 0 && !IsSpace(j[0])
  {
    assert IsListItem(ps[0]);
    if |ps| > 1 {
      assert Join(ps, ", ") == ps[0] + ", " + Join(ps[1..], ", ");
    }
  }

  /** Joining list items with ", " and splitting on commas gives them back. */
  lemma SplitOnCommasOfJoin(ps: seq<string>)
    requires forall i :: 0 <= i < |ps| ==> IsListItem(ps[i])
    ensures SplitOnCommas(Join(ps, ", ")) == ps
  {
    if ps != [] {
      CommaFieldsOfJoin(ps);
      JoinStartsWithFirst(ps);
      assert ps[|ps| - 1] != "";
    }
  }

  // ---------------------------------------------------------------------
  // `str.split( ' ', 4 )` (awk-style split with a limit)

  /** Length of the leading run of non-space characters. */
  function TokenLength(s: string): (k: nat)
    ensures k <= |s|
    ensures forall j :: 0 <= j < k ==> !IsSpace(s[j])
    ensures k < |s| ==> IsSpace(s[k])
  {
    if s == [] || IsSpace(s[0]) then 0 else 1 + TokenLength(s[1..])
  }

  /** The fields of an awk-style split that may still cut `cuts` tokens off
      before the remainder is returned whole. */
  function AwkFields(s: string, cuts: nat): (r: seq<string>)
    ensures |r| >= 1 && |r| <= cuts + 1
    decreases |s|
  {
    var t := StripLeft(s);
    if cuts == 0 then [t]
    else
      var n := TokenLength(t);
      if n == |t| then [t]
      else [t[..n]] + AwkFields(t[n..], cuts - 1)
  }

  /** Ruby's `s.split( ' ', 4 )`: leading whitespace is skipped, the first
      three whitespace-separated tokens are cut off and the remainder, from
      its first non-space character, is the fourth field. */
  function SplitFour(s: string): (r: seq<string>)
    ensures |r| <= 4
  {
    if s == "" then [] else AwkFields(s, 3)
  }

  lemma StripLeftOfSpaceThen(w: string, rest: string)
    requires w != "" && NoSpace(w)
    ensures StripLeft(" " + w + rest) == w + rest
  {
    assert (" " + w + rest)[1..] == w + rest;
    assert (w + rest)[0] == w[0];
  }

  lemma TokenLengthOf(w: string, rest: string)
    requires NoSpace(w)
    requires rest != [] && IsSpace(rest[0])
    ensures TokenLength(w + rest) == |w|
  {
    if w != [] {
      assert (w + rest)[1..] == w[1..] + rest;
      TokenLengthOf(w[1..], rest);
    } else {
      assert w + rest == rest;
    }
  }

  /** One step of the awk-style split: a token followed by whitespace is cut
      off and the split continues on what follows it. */
  lemma AwkFieldsStep(x: string, w: string, tail: string, cuts: nat)
    requires StripLeft(x) == w + tail
    requires w != "" && NoSpace(w)
    requires tail != [] && IsSpace(tail[0])
    requires cuts >= 1
    ensures AwkFields(x, cuts) == [w] + AwkFields(tail, cuts - 1)
  {
    TokenLengthOf(w, tail);
    assert (w + tail)[..|w|] == w && (w + tail)[|w|..] == tail;
    AwkFieldsUnfold(x, cuts);
  }

  lemma AwkFieldsUnfold(x: string, cuts: nat)
    requires cuts >= 1
    requires TokenLength(StripLeft(x)) < |StripLeft(x)|
    ensures var t := StripLeft(x); var n := TokenLength(t);
      AwkFields(x, cuts) == [t[..n]] + AwkFields(t[n..], cuts - 1)
  {
  }

  lemma AwkLastTwo(c: string, rest: string)
    requires c != "" && NoSpace(c)
    requires rest == "" || !IsSpace(rest[0])
    ensures AwkFields(" " + c + (" " + rest), 1) == [c, rest]
  {
    var s3 := " " + rest;
    StripLeftOfSpaceThen(c, s3);
    AwkFieldsStep(" " + c + s3, c, s3, 1);
    assert StripLeft(s3) == rest by {
      assert s3[1..] == rest;
    }
  }

  lemma AwkLastThree(b: string, c: string, rest: string)
    requires b != "" && c != ""
    requires NoSpace(b) && NoSpace(c)
    requires rest == "" || !IsSpace(rest[0])
    ensures AwkFields(" " + b + (" " + c + (" " + rest)), 2) == [b, c, rest]
  {
    var s2 := " " + c + (" " + rest);
    StripLeftOfSpaceThen(b, s2);
    AwkFieldsStep(" " + b + s2, b, s2, 2);
    AwkLastTwo(c, rest);
  }

  /** Splitting "sender id path rest" recovers the four parts, whenever the
      first three are non-empty and space-free and the rest does not start
      with whitespace. */
  lemma SplitFourOfEnvelope(a: string, b: string, c: string, rest: string)
    requires a != "" && b != "" && c != ""
    requires NoSpace(a) && NoSpace(b) && NoSpace(c)
    requires rest == "" || !IsSpace(rest[0])
    ensures SplitFour(a + " " + b + " " + c + " " + rest) == [a, b, c, rest]
  {
    var s1 := " " + b + (" " + c + (" " + rest));
    EnvelopeShape(a, b, c, rest);
    assert StripLeft(a + s1) == a + s1 by {
      assert (a + s1)[0] == a[0];
    }
    AwkFieldsStep(a + s1, a, s1, 3);
    AwkLastThree(b, c, rest);
  }

  lemma EnvelopeShape(a: string, b: string, c: string, rest: string)
    ensures a + " " + b + " " + c + " " + rest == a + (" " + b + (" " + c + (" " + rest)))
  {
  }

  // ---------------------------------------------------------------------
  // `str =~ /^(\w+)$/` (line-anchored in Ruby)


  /** What `/^(\w+)$/` captures in `s`: Ruby's `^` and `$` match at every line
      boundary, so the capture is the first line that is a non-empty run of
      word characters. */
  function FirstWordLine(s: string): (r: Option<string>)
    ensures r.Some? ==> IsWord(r.value)
    ensures '\n' !in s ==> (r.Some? <==> IsWord(s))
    ensures '\n' !in s && r.Some? ==> r.value == s
    decreases |s|
  {
    var k := IndexOf(s, '\n');
    if IsWord(s[..k]) then Some(s[..k])
    else if k == |s| then None
    else FirstWordLine(s[k + 1..])
  }

  // ---------------------------------------------------------------------
  // Prefixes, suffixes, substrings, case

  predicate StartsWith(s: string, p: string) { |p| <= |s| && s[..|p|] == p }

  predicate EndsWith(s: string, p: string) { |p| <= |s| && s[|s| - |p|..] == p }

  function LowerChar(c: char): char {
    if 'A' <= c <= 'Z' then (c as int + 32) as char else c
  }

  function Lower(s: string): (r: string)
    ensures |r| == |s|
    ensures forall i :: 0 <= i < |s| ==> r[i] == LowerChar(s[i])
  {
    seq(|s|, i requires 0 <= i < |s| => LowerChar(s[i]))
  }

  predicate OccursAt(s: string, sub: string, i: nat) {
    i + |sub| <= |s| && s[i..i + |sub|] == sub
  }

  /** Whether `sub` occurs in `s` at some position. */
  function Contains(s: string, sub: string): (r: bool)
    ensures r <==> exists i: nat :: OccursAt(s, sub, i)
    decreases |s|
  {
    if |sub| > |s| then false
    else if s[..|sub|] == sub then assert OccursAt(s, sub, 0); true
    else
      OccursInTail(s, sub);
      Contains(s[1..], sub)
  }

  /** When `sub` is not at the front of `s`, it occurs in `s` exactly when it
      occurs in the tail of `s`. */
  lemma OccursInTail(s: string, sub: string)
    requires |sub| <= |s| && s[..|sub|] != sub
    ensures (exists i: nat :: OccursAt(s, sub, i)) <==> (exists i: nat :: OccursAt(s[1..], sub, i))
  {
    if exists i: nat :: OccursAt(s[1..], sub, i) {
      var i: nat :| OccursAt(s[1..], sub, i);
      OccursShift(s, sub, i);
    }
    if exists i: nat :: OccursAt(s, sub, i) {
      var i: nat :| OccursAt(s, sub, i);
      assert i != 0;
      OccursShift(s, sub, i - 1);
    }
  }

  lemma OccursShift(s: string, sub: string, i: nat)
    requires |s| >= 1
    ensures OccursAt(s, sub, i + 1) <==> OccursAt(s[1..], sub, i)
  {
    if i + 1 + |sub| <= |s| {
      SliceOfTail(s, i, |sub|);
    }
  }

  lemma SliceOfTail(s: string, i: nat, n: nat)
    requires 1 <= |s| && i + 1 + n <= |s|
    ensures s[i + 1..i + 1 + n] == s[1..][i..i + n]
  {
    var u, v := s[1..][i..i + n], s[i + 1..i + 1 + n];
    assert forall k :: 0 <= k < n ==> u[k] == v[k];
  }

  // ---------------------------------------------------------------------
  // `%p` of a string

  /** `String#inspect` for text without control characters: quoted, with
      quotes and backslashes escaped. */
  function Inspect(s: string): (r: string)
    ensures |r| >= |s| + 2 && r[0] == '"' && r[|r| - 1] == '"'
    ensures Unescaped(r[1..|r| - 1]) == s
  {
    var r := "\"" + Escaped(s) + "\"";
    assert r[1..|r| - 1] == Escaped(s);
    UnescapeEscaped(s);
    r
  }

  function Escaped(s: string): (r: string)
    ensures |r| >= |s|
  {
    if s == [] then ""
    else (if s[0] in {'"', '\\'} then ['\\', s[0]] else [s[0]]) + Escaped(s[1..])
  }

  /** Reading a quoted string back: a backslash takes the next character
      literally. */
  function Unescaped(r: string): string
    decreases |r|
  {
    if r == [] then []
    else if r[0] == '\\' && |r| >= 2 then [r[1]] + Unescaped(r[2..])
    else [r[0]] + Unescaped(r[1..])
  }

  /** The escaping `%p` applies loses nothing. */
  lemma {:induction false} UnescapeEscaped(s: string)
    ensures Unescaped(Escaped(s)) == s
  {
    if s != [] {
      var e := Escaped(s[1..]);
      UnescapeEscaped(s[1..]);
      if s[0] in {'"', '\\'} {
        var r := ['\\', s[0]] + e;
        assert r[0] == '\\' && r[1] == s[0] && r[2..] == e;
      } else {
        var r := [s[0]] + e;
        assert r[0] == s[0] && r[1..] == e;
      }
      assert s == [s[0]] + s[1..];
    }
  }
}
