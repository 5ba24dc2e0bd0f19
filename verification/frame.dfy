/** The WebSocket frame of section 5.2 of RFC 6455 as the connector builds,
    validates and serialises it.  The connector is always the server end, so
    the frames it writes are never masked.

    The first header byte (`flags`) is kept as a byte: every use the
    connector makes of it (the flag predicates, the opcode nibble and the
    signed 8-bit `pack` of the header) sees only its low eight bits, and
    Ruby's `&`, `|` and `^` on two's-complement integers agree with the byte
    operations on those bits.
 */
module WsFrame {
  import opened Wrappers
  import opened Text
  import opened Buffers

  // ---------------------------------------------------------------------
  // Header bits

  const FinFlag: bv8 := 0x80
  const Rsv1Flag: bv8 := 0x40
  const Rsv2Flag: bv8 := 0x20
  const Rsv3Flag: bv8 := 0x10
  const RsvFlagMask: bv8 := 0x70
  const OpcodeBitmask: bv8 := 0x0F
  const OpcodeControlMask: bv8 := 0x08

  /** FIN + CLOSE */
  const DefaultFlags: bv8 := 0x88
  const DefaultFragmentSize: int := 4096
  const DefaultChunksize: int := 512 * 1024

  // ---------------------------------------------------------------------
  // Opcodes

  const OpcodeNames: seq<string> := ["continuation", "text", "binary", "close", "ping", "pong"]

  predicate IsOpcodeName(name: string) { name in OpcodeNames }

  /** `OPCODE_NAME[ code ]`: the six named opcodes, "reserved" for the other
      codes of the four-bit field, RangeError beyond it. */
  function OpcodeName(code: int): (r: Result<string>)
    ensures r.Err? <==> !(0 <= code <= 15)
    ensures r.Err? ==> r.error.kind == RangeError
    ensures r.Ok? ==> IsOpcodeName(r.value) || r.value == "reserved"
    ensures r.Ok? ==> (r.value == "reserved" <==> code !in {0x0, 0x1, 0x2, 0x8, 0x9, 0xA})
  {
    if code == 0x0 then Ok("continuation")
    else if code == 0x1 then Ok("text")
    else if code == 0x2 then Ok("binary")
    else if code == 0x8 then Ok("close")
    else if code == 0x9 then Ok("ping")
    else if code == 0xA then Ok("pong")
    else if 0 <= code <= 15 then Ok("reserved")
    else Fail(RangeError, "invalid opcode " + IntToString(code) + "!")
  }

  /** `OPCODE[ name ]`, the inverted table: only the six names have codes. */
  function OpcodeBits(name: string): (r: Option<bv8>)
    ensures r.Some? <==> IsOpcodeName(name)
    ensures r.Some? ==> r.value <= 15 && r.value in {0x0, 0x1, 0x2, 0x8, 0x9, 0xA}
  {
    if name == "continuation" then Some(0x0)
    else if name == "text" then Some(0x1)
    else if name == "binary" then Some(0x2)
    else if name == "close" then Some(0x8)
    else if name == "ping" then Some(0x9)
    else if name == "pong" then Some(0xA)
    else None
  }

  /** The name of an opcode nibble, as `OPCODE_NAME` gives it. */
  function NibbleName(c: bv8): (name: string)
    requires c <= 15
    ensures IsOpcodeName(name) <==> name != "reserved"
    ensures name != "reserved" ==> OpcodeBits(name) == Some(c)
    ensures name == "reserved" <==> c !in {0x0, 0x1, 0x2, 0x8, 0x9, 0xA}
  {
    if c == 0x0 then "continuation"
    else if c == 0x1 then "text"
    else if c == 0x2 then "binary"
    else if c == 0x8 then "close"
    else if c == 0x9 then "ping"
    else if c == 0xA then "pong"
    else "reserved"
  }

  /** The nibble names agree with the `OPCODE_NAME` table. */
  lemma NibbleNameAgrees(c: bv8)
    requires c <= 15
    ensures OpcodeName(c as int) == Ok(NibbleName(c))
  {
  }

  /** The two opcode tables are inverse to each other. */
  lemma OpcodeNameOfBits(name: string)
    requires IsOpcodeName(name)
    ensures OpcodeName(OpcodeBits(name).value as int) == Ok(name)
  {
    NibbleNameAgrees(OpcodeBits(name).value);
  }

  lemma OpcodeBitsOfName(code: int)
    requires 0 <= code <= 15 && OpcodeName(code) != Ok("reserved")
    ensures OpcodeBits(OpcodeName(code).value).Some?
    ensures OpcodeBits(OpcodeName(code).value).value as int == code
  {
  }

  // ---------------------------------------------------------------------
  // Frames

  /** A frame: header flags, payload stream, the messages of the last
      validation and the chunk size used when streaming it. */
  datatype Frame = Frame(flags: bv8, payload: Buffer, errors: seq<string>, chunksize: int)

  predicate Fin(f: Frame) { f.flags & FinFlag != 0 }
  predicate Rsv1(f: Frame) { f.flags & Rsv1Flag != 0 }
  predicate Rsv2(f: Frame) { f.flags & Rsv2Flag != 0 }
  predicate Rsv3(f: Frame) { f.flags & Rsv3Flag != 0 }
  predicate HasRsvFlags(f: Frame) { f.flags & RsvFlagMask != 0 }
  predicate IsControl(f: Frame) { f.flags & OpcodeControlMask != 0 }

  lemma RsvFlagsAreTheThreeBits(f: Frame)
    ensures HasRsvFlags(f) <==> Rsv1(f) || Rsv2(f) || Rsv3(f)
  {
  }

  function NumericOpcode(f: Frame): (c: bv8)
    ensures c <= 15
  {
    f.flags & OpcodeBitmask
  }

  /** `Frame#opcode`: the name of the opcode nibble (never a RangeError). */
  function Opcode(f: Frame): (name: string)
    ensures IsOpcodeName(name) <==> name != "reserved"
    ensures name != "reserved" ==> OpcodeBits(name) == Some(NumericOpcode(f))
    ensures name == "reserved" <==> NumericOpcode(f) !in {0x0, 0x1, 0x2, 0x8, 0x9, 0xA}
  {
    NibbleName(NumericOpcode(f))
  }

  /** The `fin=`, `rsv1=`, `rsv2=` and `rsv3=` setters: a true value sets the
      bit and a false one clears it; nothing else changes. */
  function SetFlag(f: Frame, mask: bv8, on: bool): (r: Frame)
    ensures r == f.(flags := r.flags)
    ensures r.flags & mask == (if on then mask else 0)
    ensures r.flags & !mask == f.flags & !mask
  {
    if on then f.(flags := f.flags | mask) else f.(flags := f.flags ^ (f.flags & mask))
  }

  /** The opcode nibble is cleared and the code's low byte ORed in, so a code
      above 15 also sets header bits outside the nibble. */
  function PutOpcode(f: Frame, code: bv8): (r: Frame)
    ensures r == f.(flags := r.flags)
    ensures code <= 15 ==> NumericOpcode(r) == code && r.flags & 0xF0 == f.flags & 0xF0
  {
    f.(flags := (f.flags ^ (f.flags & OpcodeBitmask)) | code)
  }

  /** Putting a named opcode makes the frame report that name. */
  lemma PutOpcodeNamed(f: Frame, name: string)
    requires IsOpcodeName(name)
    ensures var g := PutOpcode(f, OpcodeBits(name).value);
      Opcode(g) == name && g.flags & 0xF0 == f.flags & 0xF0
  {
  }

  /** A Ruby value passed where the connector expects a flag or an opcode. */
  datatype Arg =
    | Sym(name: string)
    | Int(n: int)
    | Str(s: string)
    | Nil
    | Arr(items: seq<Arg>)
    | Other(inspect: string)   // any other object, with its `inspect` text

  /** `%p` of an argument: an array prints its items inspected, between
      brackets and separated by ", ". */
  function Inspect(a: Arg): (r: string)
    ensures a.Str? ==> r == Text.Inspect(a.s)
    ensures a.Arr? ==> |r| >= 2 && r[0] == '[' && r[|r| - 1] == ']'
    ensures a.Arr? && |a.items| == 1 ==> r == "[" + Inspect(a.items[0]) + "]"
    decreases a, 1
  {
    match a
    case Sym(n) => ":" + n
    case Int(n) => IntToString(n)
    case Str(s) => Text.Inspect(s)
    case Nil => "nil"
    case Arr(items) => "[" + InspectArgs(items) + "]"
    case Other(i) => i
  }

  function InspectArgs(items: seq<Arg>): (r: string)
    ensures |items| == 1 ==> r == Inspect(items[0])
    decreases items, 0
  {
    if items == [] then ""
    else
      assert items[0] in items;
      if |items| == 1 then Inspect(items[0])
      else Inspect(items[0]) + ", " + InspectArgs(items[1..])
  }

  /** `Frame#opcode=`: an Integer is used as it is; a Symbol or String must
      name one of the six opcodes. */
  function SetOpcode(f: Frame, code: Arg): (r: Result<Frame>)
    ensures r.Ok? ==> r.value == f.(flags := r.value.flags)
    ensures (code.Sym? || code.Str?) ==>
      var name := if code.Sym? then code.name else code.s;
      (r.Ok? <==> IsOpcodeName(name)) &&
      (r.Ok? ==> Opcode(r.value) == name && r.value.flags & 0xF0 == f.flags & 0xF0) &&
      (r.Err? ==> r.error == Error(ArgumentError, "unknown opcode " + Inspect(code)))
    ensures code.Int? ==> r.Ok?
  {
    match code
    case Int(n) => Ok(PutOpcode(f, LowByte(n)))
    case Sym(name) =>
      (match OpcodeBits(name)
       case Some(bits) => PutOpcodeNamed(f, name); Ok(PutOpcode(f, bits))
       case None => Fail(ArgumentError, "unknown opcode " + Inspect(code)))
    case Str(name) =>
      (match OpcodeBits(name)
       case Some(bits) => PutOpcodeNamed(f, name); Ok(PutOpcode(f, bits))
       case None => Fail(ArgumentError, "unknown opcode " + Inspect(code)))
    case _ => Fail(NoMethodError, "undefined method `to_sym' for " + Inspect(code))
  }

  /** `opcode = n` for any Integer n: the opcode nibble is cleared and n
      ORed in, so a code above 15 also sets bits of the upper half (0x81
      sets FIN).  A code within the nibble becomes the frame's opcode and
      leaves the upper four bits as they were. */
  lemma SetNumericOpcode(f: Frame, n: int)
    ensures var r := SetOpcode(f, Int(n));
      && r.Ok? && r.value.flags == (f.flags & 0xF0) | LowByte(n)
      && (LowByte(n) & FinFlag != 0 ==> Fin(r.value))
    ensures 0 <= n <= 15 ==> var r := SetOpcode(f, Int(n));
      NumericOpcode(r.value) as int == n && r.value.flags & 0xF0 == f.flags & 0xF0
  {
    assert f.flags ^ (f.flags & OpcodeBitmask) == f.flags & 0xF0;
    if 0 <= n <= 15 {
      LowByteOfNibble(n);
    }
  }

  // ---------------------------------------------------------------------
  // set_flags

  predicate IsHexDigit(c: char) { '0' <= c <= '9' || 'a' <= c <= 'f' || 'A' <= c <= 'F' }

  /** Matches `\A0x\h{2}\z`. */
  predicate IsHexByte(s: string) {
    |s| == 4 && s[0] == '0' && s[1] == 'x' && IsHexDigit(s[2]) && IsHexDigit(s[3])
  }

  /** `Integer( "0xHH" )` */
  function HexByteValue(s: string): (v: nat)
    requires IsHexByte(s)
    ensures v < 256
  {
    var hi := DigitValue(s[2]);
    var lo := DigitValue(s[3]);
    assert hi < 16 && lo < 16;
    hi * 16 + lo
  }

  /** The bit a flag symbol names, if it names one. */
  function FlagBit(name: string): (r: Option<bv8>)
    ensures r.Some? ==> r.value in {FinFlag, Rsv1Flag, Rsv2Flag, Rsv3Flag}
  {
    if name == "fin" then Some(FinFlag)
    else if name == "rsv1" then Some(Rsv1Flag)
    else if name == "rsv2" then Some(Rsv2Flag)
    else if name == "rsv3" then Some(Rsv3Flag)
    else None
  }

  /** `flatten!` followed by `compact!`. */
  function Flatten(args: seq<Arg>): (r: seq<Arg>)
    ensures forall i :: 0 <= i < |r| ==> !r[i].Arr? && !r[i].Nil?
    decreases args
  {
    if args == [] then []
    else
      var head := args[0];
      assert head in args;
      var front := match head
        case Arr(items) => Flatten(items)
        case Nil => []
        case _ => [head];
      front + Flatten(args[1..])
  }

  lemma {:induction false} FlattenConcat(a: seq<Arg>, b: seq<Arg>)
    ensures Flatten(a + b) == Flatten(a) + Flatten(b)
    decreases a
  {
    if a == [] {
      assert a + b == b;
    } else {
      assert (a + b)[0] == a[0];
      assert (a + b)[1..] == a[1..] + b;
      FlattenConcat(a[1..], b);
    }
  }

  /** What `set_flags` makes of a Symbol, in the order its `case` tests. */
  datatype SymbolKind = FlagSymbol(bit: bv8) | OpcodeSymbol(code: bv8) | HexSymbol | UnknownSymbol

  function Classify(name: string): (k: SymbolKind)
    ensures k.FlagSymbol? <==> FlagBit(name).Some?
    ensures k.FlagSymbol? ==> k.bit == FlagBit(name).value
    ensures k.OpcodeSymbol? <==> IsOpcodeName(name)
    ensures k.OpcodeSymbol? ==> k.code == OpcodeBits(name).value
    ensures k.HexSymbol? <==> FlagBit(name).None? && !IsOpcodeName(name) && IsHexByte(name)
  {
    match FlagBit(name)
    case Some(bit) => FlagSymbol(bit)
    case None =>
      match OpcodeBits(name)
      case Some(code) => OpcodeSymbol(code)
      case None => if IsHexByte(name) then HexSymbol else UnknownSymbol
  }

  /** One flag of `set_flags`: a flag symbol sets its bit, an opcode symbol
      sets the opcode, an Integer is ORed in, a `0xHH` string replaces the
      whole header byte; a `0xHH` symbol fails in `Integer()`, and anything
      else is an unknown flag.  Only the header byte changes. */
  function ApplyFlag(f: Frame, a: Arg): (r: Result<Frame>)
    ensures r.Ok? ==> r.value == f.(flags := r.value.flags)
    ensures r.Err? <==> !ApplyFlagSucceeds(a)
  {
    var unknown := Fail(ArgumentError, "Don't know what the " + Inspect(a) + " flag is.");
    match a
    case Sym(name) =>
      (match Classify(name)
       case FlagSymbol(bit) => Ok(SetFlag(f, bit, true))
       case OpcodeSymbol(code) => Ok(PutOpcode(f, code))
       case HexSymbol => Fail(TypeError, "can't convert Symbol into Integer")
       case UnknownSymbol => unknown)
    case Int(n) => Ok(f.(flags := f.flags | LowByte(n)))
    case Str(s) => if IsHexByte(s) then Ok(f.(flags := LowByte(HexByteValue(s)))) else unknown
    case _ => unknown
  }

  /** Whether one (flattened) flag is accepted; this does not depend on the
      frame it is applied to. */
  predicate ApplyFlagSucceeds(a: Arg) {
    match a
    case Sym(name) => Classify(name).FlagSymbol? || Classify(name).OpcodeSymbol?
    case Int(_) => true
    case Str(s) => IsHexByte(s)
    case _ => false
  }

  /** A flag symbol sets its bit and leaves the others. */
  lemma ApplyFlagBit(f: Frame, name: string)
    requires FlagBit(name).Some?
    ensures var r := ApplyFlag(f, Sym(name)); var bit := FlagBit(name).value;
      && r.Ok? && r.value.flags & bit == bit && r.value.flags & !bit == f.flags & !bit
  {
  }

  /** An opcode symbol sets the opcode and leaves the upper four bits; it
      acts as `opcode=` does. */
  lemma ApplyFlagOpcode(f: Frame, name: string)
    requires IsOpcodeName(name)
    ensures var r := ApplyFlag(f, Sym(name));
      && r.Ok? && Opcode(r.value) == name && r.value.flags & 0xF0 == f.flags & 0xF0
      && r == SetOpcode(f, Sym(name))
  {
    PutOpcodeNamed(f, name);
  }

  /** An Integer is ORed into the header byte by its two's-complement low
      byte. */
  lemma ApplyFlagInteger(f: Frame, n: int)
    ensures var r := ApplyFlag(f, Int(n));
      && r.Ok? && r.value.flags & !f.flags == LowByte(n) & !f.flags
      && r.value.flags & f.flags == f.flags
  {
  }

  /** A `0xHH` string replaces the header byte with the value `Integer()`
      reads from it. */
  lemma ApplyFlagHexString(f: Frame, s: string)
    requires IsHexByte(s)
    ensures var r := ApplyFlag(f, Str(s));
      && r.Ok? && r.value.flags as int == HexByteValue(s)
  {
    var v := HexByteValue(s);
    assert ApplyFlag(f, Str(s)) == Ok(f.(flags := LowByte(v)));
    ModOfSmall(v, 256);
  }

  /** A `0xHH` symbol gets as far as `Integer()`, which refuses Symbols;
      other unknown flags are reported by name. */
  lemma ApplyFlagErrors(f: Frame, a: Arg)
    requires !ApplyFlagSucceeds(a)
    ensures a.Sym? && IsHexByte(a.name) ==> ApplyFlag(f, a) == Fail(TypeError, "can't convert Symbol into Integer")
    ensures !(a.Sym? && IsHexByte(a.name)) ==>
      ApplyFlag(f, a) == Fail(ArgumentError, "Don't know what the " + Inspect(a) + " flag is.")
  {
    if a.Sym? {
      assert Classify(a.name).HexSymbol? || Classify(a.name).UnknownSymbol?;
    }
  }

  /** Applies already-flattened flags in order.  Ruby changes the frame flag
      by flag, so a failure leaves the earlier flags applied; the frame as it
      was when the error was raised comes back with the error. */
  function ApplyFlags(f: Frame, flat: seq<Arg>): (r: (Frame, Option<Error>))
    ensures r.0 == f.(flags := r.0.flags)
    decreases |flat|
  {
    if flat == [] then (f, None)
    else
      match ApplyFlag(f, flat[0])
      case Err(e) => (f, Some(e))
      case Ok(g) => ApplyFlags(g, flat[1..])
  }

  /** Every one of the flattened flags is accepted. */
  predicate AllAccepted(flat: seq<Arg>) {
    forall i :: 0 <= i < |flat| ==> ApplyFlagSucceeds(flat[i])
  }

  /** `Frame#set_flags( *flags )` */
  function SetFlags(f: Frame, args: seq<Arg>): (r: (Frame, Option<Error>))
    ensures r.0 == f.(flags := r.0.flags)
    ensures r.1.None? <==> AllAccepted(Flatten(args))
  {
    var flat := Flatten(args);
    ApplyFlagsSucceed(f, flat);
    ApplyFlags(f, flat)
  }

  lemma {:induction false} ApplyFlagsSucceed(f: Frame, flat: seq<Arg>)
    ensures ApplyFlags(f, flat).1.None? <==> AllAccepted(flat)
    decreases |flat|
  {
    if flat != [] {
      var r := ApplyFlag(f, flat[0]);
      assert r.Ok? <==> ApplyFlagSucceeds(flat[0]);
      if r.Ok? {
        ApplyFlagsSucceed(r.value, flat[1..]);
        assert forall i :: 1 <= i < |flat| ==> flat[i] == flat[1..][i - 1];
      }
    }
  }

  /** Setting flags in two calls is the same as setting them in one, up to
      the first failure. */
  lemma {:induction false} ApplyFlagsConcat(f: Frame, a: seq<Arg>, b: seq<Arg>)
    ensures ApplyFlags(f, a + b) ==
      (var (g, e) := ApplyFlags(f, a); if e.Some? then (g, e) else ApplyFlags(g, b))
    decreases |a|
  {
    if a == [] {
      assert a + b == b;
    } else {
      assert (a + b)[0] == a[0];
      assert (a + b)[1..] == a[1..] + b;
      match ApplyFlag(f, a[0])
      case Err(_) =>
      case Ok(g) => ApplyFlagsConcat(g, a[1..], b);
    }
  }

  lemma SetFlagsConcat(f: Frame, a: seq<Arg>, b: seq<Arg>)
    ensures SetFlags(f, a + b) ==
      (var (g, e) := SetFlags(f, a); if e.Some? then (g, e) else SetFlags(g, b))
  {
    FlattenConcat(a, b);
    ApplyFlagsConcat(f, Flatten(a), Flatten(b));
  }

  /** `set_flags( :close, :fin )` makes any frame a final close frame. */
  lemma SetFlagsCloseFin(f: Frame)
    ensures var (g, e) := SetFlags(f, [Sym("close"), Sym("fin")]);
      e.None? && Opcode(g) == "close" && Fin(g) && g.flags & 0x70 == f.flags & 0x70
  {
    var args := [Sym("close"), Sym("fin")];
    assert Flatten(args) == args by {
      assert Flatten(args[1..]) == [Sym("fin")];
    }
    ApplyFlagOpcode(f, "close");
    var g := ApplyFlag(f, Sym("close")).value;
    ApplyFlagBit(g, "fin");
    var h := ApplyFlag(g, Sym("fin")).value;
    assert ApplyFlags(f, args) == ApplyFlags(g, args[1..]);
    assert ApplyFlags(g, args[1..]) == ApplyFlags(h, []);
    assert NumericOpcode(h) == NumericOpcode(g) by {
      assert h.flags & !FinFlag == g.flags & !FinFlag;
    }
  }

  /** An Integer flag ORs its bits into the opcode nibble: on a text frame,
      `set_flags( 0xB )` leaves the reserved opcode 0xB. */
  lemma SetFlagsReservedOpcode(f: Frame)
    requires Opcode(f) == "text"
    ensures var (g, e) := SetFlags(f, [Int(0xB)]);
      e.None? && NumericOpcode(g) == 0xB && Opcode(g) == "reserved"
  {
    var args := [Int(0xB)];
    assert Flatten(args) == args;
    assert LowByte(0xB) == 0xB by {
      assert LowByte(0xB) as int == 0xB;
    }
    var g := ApplyFlag(f, Int(0xB)).value;
    assert ApplyFlags(f, args) == ApplyFlags(g, []);
    assert NumericOpcode(f) == 1;
  }

  /** Every flag is one of the bit-naming symbols. */
  predicate AllFlagSymbols(flat: seq<Arg>) {
    flat == [] || (flat[0].Sym? && Classify(flat[0].name).FlagSymbol? && AllFlagSymbols(flat[1..]))
  }

  /** The OR of the bits a run of flag symbols names. */
  function BitsOf(flat: seq<Arg>): bv8
    requires AllFlagSymbols(flat)
  {
    if flat == [] then 0 else Classify(flat[0].name).bit | BitsOf(flat[1..])
  }

  lemma OrAssociates(x: bv8, y: bv8, z: bv8)
    ensures (x | y) | z == x | (y | z)
  {
  }

  lemma FlagSymbolStep(f: Frame, flat: seq<Arg>)
    requires flat != [] && flat[0].Sym? && Classify(flat[0].name).FlagSymbol?
    ensures ApplyFlags(f, flat) == ApplyFlags(f.(flags := f.flags | Classify(flat[0].name).bit), flat[1..])
  {
    var bit := Classify(flat[0].name).bit;
    assert ApplyFlag(f, flat[0]) == Ok(SetFlag(f, bit, true)) by {
      assert flat[0] == Sym(flat[0].name);
    }
  }

  /** Flag symbols alone only ever set bits: the result is the old header
      byte ORed with the bits they name. */
  lemma {:induction false} FlagSymbolsOnlySetBits(f: Frame, flat: seq<Arg>)
    requires AllFlagSymbols(flat)
    ensures ApplyFlags(f, flat).1.None?
    ensures ApplyFlags(f, flat).0.flags == f.flags | BitsOf(flat)
    decreases |flat|
  {
    if flat == [] {
      assert BitsOf(flat) == 0;
    } else {
      var g := f.(flags := f.flags | Classify(flat[0].name).bit);
      FlagSymbolStep(f, flat);
      FlagSymbolsOnlySetBits(g, flat[1..]);
      FlagSymbolsJoin(f, flat, g, ApplyFlags(g, flat[1..]));
    }
  }

  /** The inductive step of `FlagSymbolsOnlySetBits`: the first symbol's bit
      and the bits of the rest add up to the bits of the whole run. */
  lemma FlagSymbolsJoin(f: Frame, flat: seq<Arg>, g: Frame, r: (Frame, Option<Error>))
    requires AllFlagSymbols(flat) && flat != []
    requires g == f.(flags := f.flags | Classify(flat[0].name).bit)
    requires ApplyFlags(f, flat) == r
    requires r.0.flags == g.flags | BitsOf(flat[1..])
    ensures ApplyFlags(f, flat).0.flags == f.flags | BitsOf(flat)
  {
    OrAssociates(f.flags, Classify(flat[0].name).bit, BitsOf(flat[1..]));
  }

  // ---------------------------------------------------------------------
  // Construction and payload writes

  /** `Frame.new( payload, *flags )` with the payload stream opened in the
      given mode: default header byte, chunk size and no errors; the flags,
      if any, are applied. */
  function NewFrameIn(mode: Mode, payload: Bytes, args: seq<Arg>): (r: Result<Frame>)
    ensures r.Ok? ==>
      (r.value.payload == Open(payload, mode) && r.value.errors == [] && r.value.chunksize == DefaultChunksize)
    ensures args == [] ==> r.Ok? && r.value.flags == DefaultFlags
    ensures r.Ok? <==> SetFlags(Frame(DefaultFlags, Open(payload, mode), [], DefaultChunksize), args).1.None?
  {
    var f := Frame(DefaultFlags, Open(payload, mode), [], DefaultChunksize);
    if args == [] then Ok(f)
    else
      var (g, e) := SetFlags(f, args);
      if e.Some? then Err(e.value) else Ok(g)
  }

  /** The constructor as written: `StringIO.new( payload )` opens the payload
      for reading and writing at position 0. */
  function NewFrameAsWritten(payload: Bytes, args: seq<Arg>): (r: Result<Frame>)
    ensures r.Ok? ==> r.value.payload == Open(payload, ReadWrite)
  {
    NewFrameIn(ReadWrite, payload, args)
  }

  /** The constructor as intended: the payload stream appends, so `<<`,
      `puts` and `set_status` build on the payload instead of overwriting
      it.  The rest of the model builds frames with this one. */
  function NewFrame(payload: Bytes, args: seq<Arg>): (r: Result<Frame>)
    ensures r.Ok? ==> r.value.payload == Open(payload, Append)
  {
    NewFrameIn(Append, payload, args)
  }

  /** A flag sees only the header byte: applying it to a frame with another
      payload gives the same result with that payload. */
  lemma ApplyFlagIgnoresPayload(f: Frame, p: Buffer, a: Arg)
    ensures ApplyFlag(f.(payload := p), a) ==
      (match ApplyFlag(f, a)
       case Ok(h) => Ok(h.(payload := p))
       case Err(e) => Err(e))
  {
    if a.Sym? {
      SymbolIgnoresPayload(f, p, a.name);
    } else {
      OtherIgnoresPayload(f, p, a);
    }
  }

  lemma SymbolIgnoresPayload(f: Frame, p: Buffer, name: string)
    ensures ApplyFlag(f.(payload := p), Sym(name)) ==
      (match ApplyFlag(f, Sym(name))
       case Ok(h) => Ok(h.(payload := p))
       case Err(e) => Err(e))
  {
  }

  lemma OtherIgnoresPayload(f: Frame, p: Buffer, a: Arg)
    requires !a.Sym?
    ensures ApplyFlag(f.(payload := p), a) ==
      (match ApplyFlag(f, a)
       case Ok(h) => Ok(h.(payload := p))
       case Err(e) => Err(e))
  {
  }

  lemma {:induction false} ApplyFlagsIgnorePayload(f: Frame, p: Buffer, flat: seq<Arg>)
    ensures ApplyFlags(f.(payload := p), flat) == (ApplyFlags(f, flat).0.(payload := p), ApplyFlags(f, flat).1)
    decreases |flat|
  {
    if flat != [] {
      ApplyFlagIgnoresPayload(f, p, flat[0]);
      if ApplyFlag(f, flat[0]).Ok? {
        ApplyFlagsIgnorePayload(ApplyFlag(f, flat[0]).value, p, flat[1..]);
      }
    }
  }

  /** The stream mode is all that tells the constructor as written from the
      intended one: the header byte and the errors are the same. */
  lemma NewFrameModes(payload: Bytes, args: seq<Arg>)
    ensures var w := NewFrameAsWritten(payload, args); var r := NewFrame(payload, args);
      && (w.Ok? <==> r.Ok?)
      && (r.Ok? ==> w.value == r.value.(payload := Open(payload, ReadWrite)))
      && (r.Err? ==> w.error == r.error)
  {
    var f := Frame(DefaultFlags, Open(payload, Append), [], DefaultChunksize);
    ApplyFlagsIgnorePayload(f, Open(payload, ReadWrite), Flatten(args));
  }

  /** Setting a single opcode symbol. */
  lemma SetOpcodeFlag(g: Frame, name: string)
    requires IsOpcodeName(name)
    ensures var r := SetFlags(g, [Sym(name)]);
      && r.1.None? && Opcode(r.0) == name && r.0.flags & 0xF0 == g.flags & 0xF0
  {
    assert Flatten([Sym(name)]) == [Sym(name)] by {
      assert [Sym(name)][1..] == [];
    }
    ApplyFlagOpcode(g, name);
    var h := ApplyFlag(g, Sym(name)).value;
    assert ApplyFlags(g, [Sym(name)]) == ApplyFlags(h, []);
  }

  /** A frame constructed with just an opcode name has that opcode over the
      default FIN bit. */
  lemma NewFrameWithOpcode(payload: Bytes, name: string)
    requires IsOpcodeName(name)
    ensures var r := NewFrame(payload, [Sym(name)]);
      && r.Ok? && Opcode(r.value) == name && r.value.flags & 0xF0 == 0x80
  {
    SetOpcodeFlag(Frame(DefaultFlags, Open(payload, Append), [], DefaultChunksize), name);
  }

  /** `Frame.text( payload, *flags )` and the other five convenience
      constructors: the opcode name is appended to the flags, so it wins
      over any opcode among them. */
  function Named(name: string, payload: Bytes, args: seq<Arg>): (r: Result<Frame>)
    requires IsOpcodeName(name)
    ensures r.Ok? ==> Opcode(r.value) == name && r.value.payload == Open(payload, Append)
    ensures r.Ok? <==> AllAccepted(Flatten(args))
    ensures var w := NewFrameAsWritten(payload, args + [Sym(name)]);
      (r.Ok? ==> w == Ok(r.value.(payload := Open(payload, ReadWrite))))
  {
    NewFrameModes(payload, args + [Sym(name)]);
    var f := Frame(DefaultFlags, Open(payload, Append), [], DefaultChunksize);
    SetFlagsConcat(f, args, [Sym(name)]);
    SetOpcodeFlag(SetFlags(f, args).0, name);
    NewFrame(payload, args + [Sym(name)])
  }

  /** A convenience constructor without extra flags gives a final frame with
      the named opcode and no reserved bits; it is a control frame exactly
      for close, ping and pong. */
  lemma NamedDefaults(name: string, payload: Bytes)
    requires IsOpcodeName(name)
    ensures var r := Named(name, payload, []);
      && r.Ok? && Fin(r.value) && !HasRsvFlags(r.value) && Opcode(r.value) == name
      && (IsControl(r.value) <==> name in {"close", "ping", "pong"})
  {
    var f := Frame(DefaultFlags, Open(payload, Append), [], DefaultChunksize);
    NamedWithoutFlags(name, payload);
    OpcodeOnly(f, name);
  }

  lemma NamedWithoutFlags(name: string, payload: Bytes)
    requires IsOpcodeName(name)
    ensures var f := Frame(DefaultFlags, Open(payload, Append), [], DefaultChunksize);
      Named(name, payload, []) == Ok(SetFlags(f, [Sym(name)]).0)
  {
    var f := Frame(DefaultFlags, Open(payload, Append), [], DefaultChunksize);
    assert [] + [Sym(name)] == [Sym(name)];
    SetOpcodeFlag(f, name);
  }

  /** A default frame given only an opcode name. */
  lemma OpcodeOnly(f: Frame, name: string)
    requires IsOpcodeName(name) && f.flags == DefaultFlags
    ensures var g := SetFlags(f, [Sym(name)]).0;
      && Fin(g) && !HasRsvFlags(g) && Opcode(g) == name
      && (IsControl(g) <==> name in {"close", "ping", "pong"})
  {
    SetOpcodeFlag(f, name);
    var g := SetFlags(f, [Sym(name)]).0;
    assert g.flags & 0xF0 == 0x80;
    assert IsControl(g) <==> NumericOpcode(g) & 0x08 != 0;
  }

  /** `Frame#<<`: writes to the payload stream. */
  function AppendPayload(f: Frame, s: Bytes): (r: Frame)
    ensures r == f.(payload := r.payload)
    ensures f.payload.mode == Append ==> r.payload.data == f.payload.data + s
  {
    f.(payload := Write(f.payload, s))
  }

  /** `Frame#puts( line )` */
  function PutLine(f: Frame, line: Bytes): (r: Frame)
    ensures r == f.(payload := r.payload)
    ensures f.payload.mode == Append ==>
      r.payload.data == f.payload.data + line ||
      r.payload.data == f.payload.data + line + [10]
  {
    f.(payload := Puts(f.payload, line))
  }

  /** Written as it is, a frame constructed with a payload overwrites it from
      the start when more is appended. */
  lemma AppendAfterConstructionOverwrites(payload: Bytes, args: seq<Arg>, s: Bytes)
    requires 0 < |s| <= |payload| && NewFrameAsWritten(payload, args).Ok?
    ensures AppendPayload(NewFrameAsWritten(payload, args).value, s).payload.data == s + payload[|s|..]
  {
    ReadWriteOverwritesFromStart(payload, s);
  }

  /** `Frame.text( "Hello" ) << "!"` as written: the payload becomes "!ello". */
  lemma AppendAfterConstructionExample()
    ensures var r := NewFrameAsWritten([0x48, 0x65, 0x6c, 0x6c, 0x6f], [Sym("text")]);
      r.Ok? && AppendPayload(r.value, [0x21]).payload.data == [0x21, 0x65, 0x6c, 0x6c, 0x6f]
  {
    var hello: Bytes := [0x48, 0x65, 0x6c, 0x6c, 0x6f];
    assert NewFrameAsWritten(hello, [Sym("text")]).Ok? by {
      NewFrameModes(hello, [Sym("text")]);
      NewFrameWithOpcode(hello, "text");
    }
    AppendAfterConstructionOverwrites(hello, [Sym("text")], [0x21]);
    assert hello[1..] == [0x65, 0x6c, 0x6c, 0x6f];
    assert [0x21] + hello[1..] == [0x21, 0x65, 0x6c, 0x6c, 0x6f];
  }

  /** With the intended constructor every write extends the payload. */
  lemma AppendAfterConstructionExtends(payload: Bytes, args: seq<Arg>, s: Bytes)
    requires NewFrame(payload, args).Ok?
    ensures AppendPayload(NewFrame(payload, args).value, s).payload.data == payload + s
  {
  }

  // ---------------------------------------------------------------------
  // Close frames

  /** `CLOSING_STATUS_DESC` */
  function CloseDescription(code: int): (r: Option<string>)
    ensures r.Some? ==> 1000 <= code <= 1015 && |r.value| > 0 && r.value[|r.value| - 1] == '.'
  {
    if code == 1000 then Some("Session closed normally.")
    else if code == 1001 then Some("Endpoint going away.")
    else if code == 1002 then Some("Protocol error.")
    else if code == 1003 then Some("Unhandled data type.")
    else if code == 1004 then Some("Reserved for future use.")
    else if code == 1005 then Some("No status code was present.")
    else if code == 1006 then Some("Abnormal close.")
    else if code == 1007 then Some("Bad or malformed data.")
    else if code == 1008 then Some("Policy violation.")
    else if code == 1009 then Some("Message too large for endpoint.")
    else if code == 1010 then Some("Missing extension.")
    else if code == 1011 then Some("Unexpected condition/exception.")
    else if code == 1015 then Some("TLS handshake failure.")
    else None
  }

  const CloseNormal: int := 1000

  /** `"%d %s" % [code, desc]`: an unknown code has no description and
      leaves a trailing space. */
  function StatusMessage(code: int): (m: string)
    ensures |m| > 0 && (m[|m| - 1] == '.' || m[|m| - 1] == ' ')
    ensures StartsWith(m, IntToString(code) + " ")
    ensures var desc := CloseDescription(code); var n := |IntToString(code) + " "|;
      m[n..] == (if desc.Some? then desc.value else "")
  {
    var desc := CloseDescription(code);
    var m := IntToString(code) + " " + (if desc.Some? then desc.value else "");
    assert m[..|IntToString(code) + " "|] == IntToString(code) + " ";
    m
  }

  /** The status message reads back: `Integer()` of the text before its
      first space is the code, and what follows the space is the code's
      description. */
  lemma StatusMessageReadsBack(code: int)
    ensures var m := StatusMessage(code); var k := IndexOf(m, ' ');
      && k < |m| && ParseInteger(m[..k]) == Ok(code)
      && m[k + 1..] == (if CloseDescription(code).Some? then CloseDescription(code).value else "")
  {
    var m := StatusMessage(code);
    var d := IntToString(code);
    assert m[..|d|] == d;
    IntToStringNoSpace(code);
    IndexOfAfter(m, d);
    ParseIntegerOfIntToString(code);
  }

  /** `Frame#set_status( code )`: truncates the payload to nothing and puts
      the status message.  `truncate` keeps the stream position, so where
      the message lands depends on the stream mode. */
  function SetStatus(f: Frame, code: int): (r: Frame)
    ensures r == f.(payload := r.payload)
    ensures r.payload.mode == f.payload.mode
  {
    f.(payload := Puts(Truncate(f.payload, 0), ToBytes(StatusMessage(code))))
  }

  /** The status message never ends in a newline, so `puts` adds one. */
  lemma StatusBytesNeedNewline(code: int)
    ensures var b := ToBytes(StatusMessage(code)); b != [] && b[|b| - 1] != 10
  {
    var m := StatusMessage(code);
    assert m[|m| - 1] as int < 256;
  }

  /** With an appending payload, the status message replaces the payload
      whatever was written before. */
  lemma SetStatusReplacesPayload(f: Frame, code: int)
    requires f.payload.mode == Append
    ensures SetStatus(f, code).payload.data == ToBytes(StatusMessage(code)) + [10]
  {
    SetStatusWrites(f, code);
  }

  /** Written as it is, a read-write payload positioned after earlier writes
      keeps that many NUL bytes in front of the status message. */
  lemma SetStatusAfterWritePadsWithNul(f: Frame, code: int)
    requires f.payload.mode == ReadWrite
    ensures SetStatus(f, code).payload.data == Zeros(f.payload.pos) + ToBytes(StatusMessage(code)) + [10]
  {
    SetStatusWrites(f, code);
  }

  /** The status line lands at the write offset of the emptied payload. */
  lemma SetStatusWrites(f: Frame, code: int)
    ensures SetStatus(f, code).payload.data ==
      Zeros(WriteOffset(Truncate(f.payload, 0))) + ToBytes(StatusMessage(code)) + [10]
  {
    StatusBytesNeedNewline(code);
    PutsOnEmpty(Truncate(f.payload, 0), ToBytes(StatusMessage(code)));
  }

  /** `Frame.close` followed by `frame << "abc"` and `set_status( 1000 )`, as
      written: three NUL bytes precede the message. */
  lemma SetStatusAfterWriteExample(code: int)
    ensures var r := NewFrameAsWritten([], [Sym("close")]);
      && r.Ok?
      && SetStatus(AppendPayload(r.value, [0x61, 0x62, 0x63]), code).payload.data[..3] == [0, 0, 0]
  {
    CloseFrameAsWritten();
    var g := NewFrameAsWritten([], [Sym("close")]).value;
    var h := AppendPayload(g, [0x61, 0x62, 0x63]);
    assert h.payload.pos == 3;
    StatusAfterWriteStartsWithNul(h, code);
    assert Zeros(3) == [0, 0, 0];
  }

  lemma StatusAfterWriteStartsWithNul(f: Frame, code: int)
    requires f.payload.mode == ReadWrite
    ensures var d := SetStatus(f, code).payload.data;
      |d| >= f.payload.pos && d[..f.payload.pos] == Zeros(f.payload.pos)
  {
    SetStatusAfterWritePadsWithNul(f, code);
    var z := Zeros(f.payload.pos);
    var m := ToBytes(StatusMessage(code)) + [10];
    assert z + ToBytes(StatusMessage(code)) + [10] == z + m;
    assert (z + m)[..|z|] == z;
  }

  lemma CloseFrameAsWritten()
    ensures var r := NewFrameAsWritten([], [Sym("close")]);
      r.Ok? && r.value.payload == Open([], ReadWrite)
  {
    var f := Frame(DefaultFlags, Open([], ReadWrite), [], DefaultChunksize);
    SetOpcodeFlag(f, "close");
  }

  /** `Frame#make_close_frame( code )`: the close opcode, then the status.
      An appending payload becomes just the status line; a read-write one
      (every frame `Frame.new` builds) keeps as many NUL bytes in front of it
      as its position, so a close frame made after writes starts with NULs. */
  function MakeCloseFrame(f: Frame, code: int): (r: Frame)
    ensures Opcode(r) == "close" && r.flags & 0xF0 == f.flags & 0xF0
    ensures r.errors == f.errors && r.chunksize == f.chunksize && r.payload.mode == f.payload.mode
    ensures f.payload.mode == Append ==> r.payload.data == ToBytes(StatusMessage(code)) + [10]
    ensures f.payload.mode == ReadWrite ==>
      r.payload.data == Zeros(f.payload.pos) + ToBytes(StatusMessage(code)) + [10]
  {
    var g := PutOpcode(f, 0x8);
    CloseOpcode(f);
    SetStatusWrites(g, code);
    SetStatus(g, code)
  }

  lemma CloseOpcode(f: Frame)
    ensures var g := PutOpcode(f, 0x8);
      Opcode(g) == "close" && g.flags & 0xF0 == f.flags & 0xF0 && g.payload == f.payload
      && g.errors == f.errors && g.chunksize == f.chunksize
  {
    assert NibbleName(0x8) == "close";
  }

  // ---------------------------------------------------------------------
  // The wire format

  function Pow256(n: nat): (p: nat)
    ensures p >= 1
  {
    if n == 0 then 1 else 256 * Pow256(n - 1)
  }

  /** The low `width` bytes of n, most significant first (`pack` truncates
      to the field width). */
  function BigEndian(n: nat, width: nat): (b: Bytes)
    ensures |b| == width
  {
    if width == 0 then [] else BigEndian(n / 256, width - 1) + [LowByte(n)]
  }

  function FromBigEndian(b: Bytes): (n: nat)
    ensures n < Pow256(|b|)
  {
    if b == [] then 0 else FromBigEndian(b[..|b| - 1]) * 256 + b[|b| - 1] as nat
  }

  /** Reading back the bytes of a number that fits the width gives it back. */
  lemma {:induction false} FromBigEndianOf(n: nat, width: nat)
    requires n < Pow256(width)
    ensures FromBigEndian(BigEndian(n, width)) == n
  {
    if width > 0 {
      var b := BigEndian(n, width);
      assert b[..|b| - 1] == BigEndian(n / 256, width - 1);
      assert b[|b| - 1] as nat == n % 256;
      assert n / 256 < Pow256(width - 1) by {
        DivBelow(n, Pow256(width - 1));
      }
      FromBigEndianOf(n / 256, width - 1);
      assert n == n / 256 * 256 + n % 256;
    }
  }

  lemma DivBelow(n: nat, p: nat)
    requires n < 256 * p
    ensures n / 256 < p
  {
  }

  /** `make_header`: the header byte and a 7-bit length, or the marker 126
      and a 16-bit length, or the marker 127 and a 64-bit length. */
  function MakeHeader(flags: bv8, length: nat): (h: Bytes)
    ensures |h| == (if length <= 125 then 2 else if length < 0x1_0000 then 4 else 10)
    ensures h[0] == flags
    ensures h[1] as int == (if length <= 125 then length else if length < 0x1_0000 then 126 else 127)
  {
    if length >= 0x1_0000 then [flags, 127] + BigEndian(length, 8)
    else if length > 125 then [flags, 126] + BigEndian(length, 2)
    else [flags, LowByte(length)]
  }

  /** A reader for unmasked frame headers, following section 5.2 of RFC
      6455: the header byte, the length and the bytes after the header. */
  function DecodeHeader(b: Bytes): (r: Option<(bv8, nat, Bytes)>)
  {
    if |b| < 2 || b[1] & 0x80 != 0 then None
    else
      var len7 := (b[1] & 0x7F) as nat;
      if len7 == 126 then
        if |b| < 4 then None else Some((b[0], FromBigEndian(b[2..4]), b[4..]))
      else if len7 == 127 then
        if |b| < 10 then None else Some((b[0], FromBigEndian(b[2..10]), b[10..]))
      else Some((b[0], len7, b[2..]))
  }

  const TwoTo64: nat := 0x1_0000_0000_0000_0000

  lemma Pow256Values()
    ensures Pow256(2) == 0x1_0000 && Pow256(8) == TwoTo64
  {
    assert Pow256(1) == 256;
    assert Pow256(4) == 0x1_0000_0000;
  }

  /** The header reader recovers the header byte and length, and finds the
      payload right after the header. */
  lemma DecodeMakeHeader(flags: bv8, length: nat, rest: Bytes)
    requires length < TwoTo64
    ensures DecodeHeader(MakeHeader(flags, length) + rest) == Some((flags, length, rest))
  {
    Pow256Values();
    if length >= 0x1_0000 {
      DecodeExtendedHeader(flags, length, 8, 127, rest);
    } else if length > 125 {
      DecodeExtendedHeader(flags, length, 2, 126, rest);
    } else {
      var b := MakeHeader(flags, length) + rest;
      assert b[1] as int == length;
      assert b[2..] == rest;
    }
  }

  /** The two extended-length headers: a marker, then the length in `width`
      bytes. */
  lemma DecodeExtendedHeader(flags: bv8, length: nat, width: nat, marker: bv8, rest: Bytes)
    requires (width, marker) == (8, 127) || (width, marker) == (2, 126)
    requires length < Pow256(width)
    ensures var b := [flags, marker] + BigEndian(length, width) + rest;
      DecodeHeader(b) == Some((flags, length, rest))
  {
    var b := [flags, marker] + BigEndian(length, width) + rest;
    assert b[2..2 + width] == BigEndian(length, width);
    assert b[2 + width..] == rest;
    FromBigEndianOf(length, width);
  }

  /** The bytes of a frame on the wire: the header, then the whole payload. */
  function WireBytes(f: Frame): (b: Bytes)
    ensures |b| >= |f.payload.data| + 2 && b[0] == f.flags
    ensures b[|b| - |f.payload.data|..] == f.payload.data
  {
    MakeHeader(f.flags, |f.payload.data|) + f.payload.data
  }

  /** `Frame#to_s`.  The stream clone it reads through shares its position
      with the payload, so the payload is left positioned at its end. */
  function Render(f: Frame): (r: (Bytes, Frame))
    ensures r.0 == WireBytes(f)
    ensures r.1 == f.(payload := f.payload.(pos := |f.payload.data|))
  {
    (WireBytes(f), f.(payload := f.payload.(pos := |f.payload.data|)))
  }

  /** Reads one complete unmasked frame: its header byte and payload. */
  function DecodeFrame(b: Bytes): (r: Option<(bv8, Bytes)>)
  {
    match DecodeHeader(b)
    case None => None
    case Some((flags, n, rest)) => if |rest| == n then Some((flags, rest)) else None
  }

  /** Decoding the rendered frame gives its header byte and payload back. */
  lemma DecodeRender(f: Frame)
    requires |f.payload.data| < TwoTo64
    ensures DecodeFrame(Render(f).0) == Some((f.flags, f.payload.data))
  {
    DecodeMakeHeader(f.flags, |f.payload.data|, f.payload.data);
  }

  /** A convenience constructor given the `:fin` flag: the header byte is
      FIN and the named opcode. */
  lemma NamedFinal(name: string, payload: Bytes)
    requires IsOpcodeName(name)
    ensures var r := Named(name, payload, [Sym("fin")]);
      && r.Ok? && r.value.flags == FinFlag | OpcodeBits(name).value
      && r.value.payload == Open(payload, Append)
  {
    var f := Frame(DefaultFlags, Open(payload, Append), [], DefaultChunksize);
    assert Flatten([Sym("fin")]) == [Sym("fin")];
    assert BitsOf([Sym("fin")]) == FinFlag;
    FlagSymbolsOnlySetBits(f, [Sym("fin")]);
    var g := SetFlags(f, [Sym("fin")]).0;
    assert g.flags == DefaultFlags;
    SetOpcodeFlag(g, name);
    SetFlagsConcat(f, [Sym("fin")], [Sym(name)]);
    var h := SetFlags(g, [Sym(name)]).0;
    assert Named(name, payload, [Sym("fin")]) == Ok(h);
    assert h.flags == (h.flags & 0xF0) | NumericOpcode(h);
  }

  /** The first example of section 5.7 of RFC 6455: a single-frame unmasked
      text message "Hello". */
  lemma RenderHelloExample()
    ensures var r := Named("text", [0x48, 0x65, 0x6c, 0x6c, 0x6f], [Sym("fin")]);
      r.Ok? && Render(r.value).0 == [0x81, 0x05, 0x48, 0x65, 0x6c, 0x6c, 0x6f]
  {
    NamedFinal("text", [0x48, 0x65, 0x6c, 0x6c, 0x6f]);
    LowByteOfNibble(5);
    assert MakeHeader(0x81, 5) == [0x81, 0x05];
  }

  /** A 256-byte binary frame uses the 16-bit length (section 5.7 of RFC
      6455). */
  lemma Render256Example(data: Bytes)
    requires |data| == 256
    ensures var r := Named("binary", data, [Sym("fin")]);
      r.Ok? && Render(r.value).0[..4] == [0x82, 0x7E, 0x01, 0x00]
  {
    NamedFinal("binary", data);
    LowByteOfNibble(0);
    LowByteOfNibble(1);
    assert BigEndian(256, 2) == [0x01, 0x00];
    assert MakeHeader(0x82, 256) == [0x82, 0x7E, 0x01, 0x00];
  }

  // ---------------------------------------------------------------------
  // Validation

  const ControlTooLong := "payload of control frame cannot exceed 125 bytes"
  const ControlFragmented := "control frame is fragmented (no FIN flag set)"
  const ReservedOpcode := "Frame uses reserved opcode"
  const ReservedFlags := "Frame has one or more reserved flags set."

  /** The frames the connector accepts: control frames are short and final
      (section 5.5 of RFC 6455), the opcode is a defined one and no
      reserved bit is set (section 5.2). */
  predicate WellFormed(f: Frame) {
    && (IsControl(f) ==> |f.payload.data| <= 125 && Fin(f))
    && NumericOpcode(f) in {0x0, 0x1, 0x2, 0x8, 0x9, 0xA}
    && f.flags & RsvFlagMask == 0
  }

  /** `Frame#valid?`: the errors are cleared and recomputed; the frame is
      valid when none was found. */
  function Valid(f: Frame): (r: (bool, Frame))
    ensures r.1 == f.(errors := r.1.errors)
    ensures r.0 <==> r.1.errors == []
    ensures r.0 <==> WellFormed(f)
    ensures ControlTooLong in r.1.errors <==> IsControl(f) && |f.payload.data| > 125
    ensures ControlFragmented in r.1.errors <==> IsControl(f) && !Fin(f)
    ensures ReservedOpcode in r.1.errors <==> Opcode(f) == "reserved"
    ensures ReservedFlags in r.1.errors <==> HasRsvFlags(f)
  {
    var control :=
      (if IsControl(f) && |f.payload.data| > 125 then [ControlTooLong] else []) +
      (if IsControl(f) && !Fin(f) then [ControlFragmented] else []);
    var errors := control +
      (if Opcode(f) == "reserved" then [ReservedOpcode] else []) +
      (if HasRsvFlags(f) then [ReservedFlags] else []);
    (errors == [], f.(errors := errors))
  }

  /** Validation ignores the errors of an earlier validation. */
  lemma ValidIdempotent(f: Frame)
    ensures Valid(Valid(f).1) == Valid(f)
  {
  }

  /** `Frame#validate`: FrameError listing the errors, joined by commas. */
  function Validate(f: Frame): (r: Result<Frame>)
    ensures r.Ok? <==> WellFormed(f)
    ensures r.Ok? ==> r.value == f.(errors := [])
    ensures r.Err? ==>
      (r.error.kind == FrameError && r.error.message == "invalid frame: " + Join(Valid(f).1.errors, ", "))
  {
    var (ok, g) := Valid(f);
    if ok then Ok(g) else Fail(FrameError, "invalid frame: " + Join(g.errors, ", "))
  }

  // ---------------------------------------------------------------------
  // Chunks and fragments

  function Concat(parts: seq<Bytes>): Bytes {
    if parts == [] then [] else parts[0] + Concat(parts[1..])
  }

  lemma SliceSplits(s: Bytes, i: int, j: int, front: Bytes)
    requires 0 <= i <= j <= |s| && s[i..j] == front
    ensures s[i..] == front + s[j..]
  {
  }

  lemma ConcatCons(b: Bytes, parts: seq<Bytes>)
    ensures Concat([b] + parts) == b + Concat(parts)
  {
    assert ([b] + parts)[1..] == parts;
  }

  /** `each_slice( n )` over bytes: consecutive pieces of n bytes, the last
      one possibly shorter. */
  function Slices(b: Bytes, n: nat): (r: seq<Bytes>)
    requires n > 0
    ensures Concat(r) == b
    ensures forall i :: 0 <= i < |r| ==> 0 < |r[i]| <= n
    ensures forall i :: 0 <= i < |r| - 1 ==> |r[i]| == n
    decreases |b|
  {
    if |b| <= n then (if b == [] then [] else [b])
    else [b[..n]] + Slices(b[n..], n)
  }

  /** `Frame#each_chunk`: validates, then slices the wire bytes by the
      frame's chunk size (a size below one is an ArgumentError). */
  function EachChunk(f: Frame): (r: Result<(seq<Bytes>, Frame)>)
    ensures r.Ok? <==> WellFormed(f) && f.chunksize > 0
    ensures !WellFormed(f) ==> r == Validate(f).PropagateFailure()
    ensures r.Ok? ==> var (chunks, g) := r.value;
      && Concat(chunks) == WireBytes(f)
      && (forall i :: 0 <= i < |chunks| ==> 0 < |chunks[i]| <= f.chunksize)
      && g == Render(f.(errors := [])).1
  {
    var g :- Validate(f);
    if g.chunksize <= 0 then Fail(ArgumentError, "invalid slice size")
    else
      var (bytes, h) := Render(g);
      Ok((Slices(bytes, g.chunksize), h))
  }

  /** The frames `each_fragment` yields from the stream's position on: the
      first carries `opcode`, the rest are continuations, and only the frame
      that leaves the stream at its end has FIN set. */
  function FragmentsFrom(io: Buffer, opcode: string, size: int, first: bool): (r: Result<seq<Frame>>)
    requires IsOpcodeName(opcode)
    decreases |io.data| - io.pos
  {
    if Eof(io) then Ok([])
    else if size == 0 then Fail(Diverges, NoProgress)
    else
      var (data, io') :- ReadPartial(io, size);
      var f := NewFrame(data, [Sym(if first then opcode else "continuation")]);
      assert f.Ok? by {
        NewFrameWithOpcode(data, if first then opcode else "continuation");
      }
      var frame := SetFlag(f.value, FinFlag, Eof(io'));
      var rest :- FragmentsFrom(io', opcode, size, false);
      Ok([frame] + rest)
  }

  /** `readpartial( 0 )` reads nothing and the stream never reaches its end,
      so `each_fragment` with size 0 on unread data loops forever. */
  const NoProgress := "each_fragment with size 0 makes no progress"

  /** `Frame.each_fragment( io, opcode, size: )`, collected: the opcode must
      be one of the six names (as a Symbol); a negative size fails on the
      first read, and a zero size on unread data never finishes. */
  function Fragments(io: Buffer, opcode: Arg, size: int): (r: Result<seq<Frame>>)
    ensures !(opcode.Sym? && IsOpcodeName(opcode.name)) ==>
      r == Fail(ArgumentError, "Invalid opcode " + Inspect(opcode))
    ensures opcode.Sym? && IsOpcodeName(opcode.name) ==> (r.Err? <==> !Eof(io) && size <= 0)
    ensures opcode.Sym? && IsOpcodeName(opcode.name) && !Eof(io) ==>
      (size < 0 ==> r.Err? && r.error.kind == ArgumentError) &&
      (size == 0 ==> r == Fail(Diverges, NoProgress))
  {
    if !(opcode.Sym? && IsOpcodeName(opcode.name)) then Fail(ArgumentError, "Invalid opcode " + Inspect(opcode))
    else
      FragmentsSucceed(io, opcode.name, size, true);
      FragmentsFrom(io, opcode.name, size, true)
  }

  /** The fragments are collected unless there is unread data and the size
      is not positive. */
  lemma {:induction false} FragmentsSucceed(io: Buffer, opcode: string, size: int, first: bool)
    requires IsOpcodeName(opcode)
    ensures FragmentsFrom(io, opcode, size, first).Err? <==> !Eof(io) && size <= 0
    decreases |io.data| - io.pos
  {
    if !Eof(io) && size > 0 {
      var (data, io') := ReadPartial(io, size).value;
      FragmentsSucceed(io', opcode, size, false);
    }
  }

  /** The payloads of a run of frames. */
  function Payloads(frames: seq<Frame>): (r: seq<Bytes>)
    ensures |r| == |frames| && forall i :: 0 <= i < |r| ==> r[i] == frames[i].payload.data
  {
    if frames == [] then [] else [frames[0].payload.data] + Payloads(frames[1..])
  }

  /** One round of `each_fragment`: the first frame holds what one
      `readpartial` returns, and the others are the fragments of the rest. */
  lemma FragmentsStep(io: Buffer, opcode: string, size: int, first: bool)
    requires IsOpcodeName(opcode)
    requires size > 0 && !Eof(io)
    ensures var (data, io') := ReadPartial(io, size).value;
      var r := FragmentsFrom(io, opcode, size, first);
      var rest := FragmentsFrom(io', opcode, size, false);
      && r.Ok? && rest.Ok? && r.value == [r.value[0]] + rest.value
      && r.value[0].payload.data == data
      && Opcode(r.value[0]) == (if first then opcode else "continuation")
      && (Fin(r.value[0]) <==> Eof(io'))
  {
    var (data, io') := ReadPartial(io, size).value;
    var name := if first then opcode else "continuation";
    NewFrameWithOpcode(data, name);
    FragmentsSucceed(io, opcode, size, first);
    FragmentsSucceed(io', opcode, size, false);
    var f := NewFrame(data, [Sym(name)]).value;
    var frame := SetFlag(f, FinFlag, Eof(io'));
    assert NumericOpcode(frame) == NumericOpcode(f);
  }

  /** The shape of one round, without the flags: the first payload is what
      `readpartial` returned, followed by the fragments of the rest. */
  lemma FragmentsShape(io: Buffer, opcode: string, size: int, first: bool)
    requires IsOpcodeName(opcode)
    requires size > 0 && !Eof(io)
    ensures var (data, io') := ReadPartial(io, size).value;
      var r := FragmentsFrom(io, opcode, size, first);
      var rest := FragmentsFrom(io', opcode, size, false);
      && r.Ok? && rest.Ok?
      && Payloads(r.value) == [data] + Payloads(rest.value)
  {
    FragmentsStep(io, opcode, size, first);
    var (data, io') := ReadPartial(io, size).value;
    var r := FragmentsFrom(io, opcode, size, first).value;
    var rest := FragmentsFrom(io', opcode, size, false).value;
    assert r[1..] == rest;
  }

  /** The fragments carry the unread bytes of the stream, in order. */
  lemma {:induction false} FragmentsCarryTheStream(io: Buffer, opcode: string, size: int, first: bool)
    requires IsOpcodeName(opcode)
    requires size > 0 && io.pos <= |io.data|
    ensures var r := FragmentsFrom(io, opcode, size, first);
      r.Ok? && Concat(Payloads(r.value)) == io.data[io.pos..]
    decreases |io.data| - io.pos
  {
    FragmentsSucceed(io, opcode, size, first);
    if !Eof(io) {
      var (data, io') := ReadPartial(io, size).value;
      FragmentsShape(io, opcode, size, first);
      FragmentsCarryTheStream(io', opcode, size, false);
      var q := Payloads(FragmentsFrom(io', opcode, size, false).value);
      ConcatCons(data, q);
      SliceSplits(io.data, io.pos, io'.pos, data);
    } else {
      assert FragmentsFrom(io, opcode, size, first) == Ok([]);
      assert io.data[io.pos..] == [];
    }
  }

  /** Every fragment is non-empty and holds at most `size` bytes. */
  lemma {:induction false} FragmentsSized(io: Buffer, opcode: string, size: int, first: bool)
    requires IsOpcodeName(opcode)
    requires size > 0 && io.pos <= |io.data|
    ensures var r := FragmentsFrom(io, opcode, size, first);
      r.Ok? && forall i :: 0 <= i < |r.value| ==> 0 < |r.value[i].payload.data| <= size
    decreases |io.data| - io.pos
  {
    FragmentsSucceed(io, opcode, size, first);
    if !Eof(io) {
      var (data, io') := ReadPartial(io, size).value;
      FragmentsShape(io, opcode, size, first);
      FragmentsSized(io', opcode, size, false);
      var p := Payloads(FragmentsFrom(io, opcode, size, first).value);
      var q := Payloads(FragmentsFrom(io', opcode, size, false).value);
      forall i | 0 <= i < |p| ensures 0 < |p[i]| <= size {
        if i > 0 { assert p[i] == q[i - 1]; }
      }
    }
  }

  /** The first fragment has the requested opcode and the others are
      continuations. */
  lemma {:induction false} FragmentsOpcodes(io: Buffer, opcode: string, size: int, first: bool)
    requires IsOpcodeName(opcode)
    requires size > 0
    ensures var r := FragmentsFrom(io, opcode, size, first);
      && r.Ok?
      && (forall i :: 0 <= i < |r.value| ==>
            Opcode(r.value[i]) == (if i == 0 && first then opcode else "continuation"))
    decreases |io.data| - io.pos
  {
    FragmentsSucceed(io, opcode, size, first);
    if !Eof(io) {
      var (data, io') := ReadPartial(io, size).value;
      FragmentsStep(io, opcode, size, first);
      FragmentsOpcodes(io', opcode, size, false);
      var r := FragmentsFrom(io, opcode, size, first).value;
      var rest := FragmentsFrom(io', opcode, size, false).value;
      assert forall i :: 1 <= i < |r| ==> r[i] == rest[i - 1];
    }
  }

  /** Only the last fragment is final. */
  lemma {:induction false} FragmentsFinalOnlyLast(io: Buffer, opcode: string, size: int, first: bool)
    requires IsOpcodeName(opcode)
    requires size > 0
    ensures var r := FragmentsFrom(io, opcode, size, first);
      && r.Ok?
      && (forall i :: 0 <= i < |r.value| ==> (Fin(r.value[i]) <==> i == |r.value| - 1))
    decreases |io.data| - io.pos
  {
    FragmentsSucceed(io, opcode, size, first);
    if !Eof(io) {
      var (data, io') := ReadPartial(io, size).value;
      FragmentsStep(io, opcode, size, first);
      FragmentsFinalOnlyLast(io', opcode, size, false);
      var r := FragmentsFrom(io, opcode, size, first).value;
      var rest := FragmentsFrom(io', opcode, size, false).value;
      assert Eof(io') <==> rest == [] by {
        if !Eof(io') {
          FragmentsStep(io', opcode, size, false);
        }
      }
      forall i | 0 <= i < |r|
        ensures Fin(r[i]) <==> i == |r| - 1
      {
        if i > 0 {
          assert r[i] == rest[i - 1];
        }
      }
    } else {
      assert FragmentsFrom(io, opcode, size, first) == Ok([]);
    }
  }
}
