/** The two tnetstring encodings the connector writes on the wire: byte
    strings (`<len>:<bytes>,`) and lists (`<len>:<items>]`, where the items
    are themselves tnetstrings).  Extended replies carry a list of strings.

    `Parse` is a reference decoder for those two encodings; the connector
    itself decodes incoming tnetstrings with an external library, which is
    not part of this model.
 */
module TNetstring {
  import opened Wrappers
  import opened Text

  datatype TValue = TStr(bytes: Bytes) | TList(items: seq<TValue>)

  const Colon: byte := 58
  const Comma: byte := 44
  const CloseBracket: byte := 93

  /** The decimal length prefix and the colon that ends it. */
  function LengthPrefix(n: nat): (b: Bytes)
    ensures |b| >= 2 && b[|b| - 1] == Colon
    ensures forall i :: 0 <= i < |b| - 1 ==> 48 <= b[i] as int <= 57
  {
    var d := NatToString(n);
    ToBytes(d) + [Colon]
  }

  function Dump(v: TValue): (b: Bytes)
    decreases v, 1
  {
    match v
    case TStr(s) => LengthPrefix(|s|) + s + [Comma]
    case TList(items) =>
      var payload := DumpAll(items);
      LengthPrefix(|payload|) + payload + [CloseBracket]
  }

  /** The concatenated encodings of a sequence of values. */
  function DumpAll(items: seq<TValue>): (b: Bytes)
    decreases items, 0
  {
    if items == [] then []
    else
      assert items[0] < TList(items);
      Dump(items[0]) + DumpAll(items[1..])
  }


  /** Decodes one tnetstring from the front of `b` and returns the value with
      the bytes that follow it. */
  function Parse(b: Bytes): (r: Option<(TValue, Bytes)>)
    ensures r.Some? ==> |r.value.1| < |b|
    decreases |b|, 1
  {
    var k := IndexOf(b, Colon);
    var digits := FromBytes(b[..k]);
    if k == |b| || k == 0 || !AllDigitsIn(digits, 10) then None
    else ParseBody(b, k, ValueIn(digits, 10))
  }

  /** Reads the payload of length `n` after the colon at `k`, and the type
      tag that follows it. */
  function ParseBody(b: Bytes, k: nat, n: nat): (r: Option<(TValue, Bytes)>)
    requires k < |b|
    ensures r.Some? ==> |r.value.1| < |b|
    decreases |b|, 0
  {
    if k + 1 + n + 1 > |b| then None
    else
      var payload := b[k + 1..k + 1 + n];
      var tag := b[k + 1 + n];
      var rest := b[k + 2 + n..];
      if tag == Comma then Some((TStr(payload), rest))
      else if tag == CloseBracket then
        match ParseAll(payload)
        case Some(items) => Some((TList(items), rest))
        case None => None
      else None
  }

  /** Decodes a whole buffer as a sequence of tnetstrings. */
  function ParseAll(b: Bytes): (r: Option<seq<TValue>>)
    decreases |b|, 2
  {
    if b == [] then Some([])
    else
      match Parse(b)
      case None => None
      case Some((v, rest)) =>
        match ParseAll(rest)
        case None => None
        case Some(vs) => Some([v] + vs)
  }

  lemma LengthPrefixParts(n: nat)
    ensures var p := LengthPrefix(n);
      && IndexOf(p, Colon) == |p| - 1
      && FromBytes(p[..|p| - 1]) == NatToString(n)
  {
    var d := NatToString(n);
    var p := LengthPrefix(n);
    assert p[..|p| - 1] == ToBytes(d);
    assert forall i :: 0 <= i < |d| ==> d[i] as int < 256;
    ToBytesFromBytes(d);
  }

  /** The length prefix is read back as the length it encodes. */
  lemma ParseLengthPrefix(n: nat, tail: Bytes)
    ensures var b := LengthPrefix(n) + tail; var k := IndexOf(b, Colon);
      && k == |LengthPrefix(n)| - 1
      && AllDigitsIn(FromBytes(b[..k]), 10)
      && ValueIn(FromBytes(b[..k]), 10) == n
  {
    var p := LengthPrefix(n);
    var b := p + tail;
    LengthPrefixParts(n);
    assert forall j :: 0 <= j < |p| ==> b[j] == p[j];
    assert IndexOf(b, Colon) == |p| - 1;
    assert b[..|p| - 1] == p[..|p| - 1];
    ValueOfNatToString(n);
  }

  /** How `Parse` reads a buffer whose length prefix has been decoded. */
  lemma ParseAt(b: Bytes, k: nat, n: nat)
    requires IndexOf(b, Colon) == k && 0 < k < |b|
    requires AllDigitsIn(FromBytes(b[..k]), 10) && ValueIn(FromBytes(b[..k]), 10) == n
    requires k + n + 2 <= |b|
    ensures b[k + 1 + n] == Comma ==> Parse(b) == Some((TStr(b[k + 1..k + 1 + n]), b[k + 2 + n..]))
    ensures b[k + 1 + n] == CloseBracket ==>
      Parse(b) ==
        (match ParseAll(b[k + 1..k + 1 + n])
         case Some(items) => Some((TList(items), b[k + 2 + n..]))
         case None => None)
  {
    assert Parse(b) == ParseBody(b, k, n);
  }

  /** The length prefix of an encoding followed by other bytes decodes to
      the payload length. */
  lemma EncodingPrefix(payload: Bytes, tag: byte, rest: Bytes)
    ensures var p := LengthPrefix(|payload|); var b := p + payload + [tag] + rest; var k := |p| - 1;
      && IndexOf(b, Colon) == k && 0 < k < |b|
      && AllDigitsIn(FromBytes(b[..k]), 10) && ValueIn(FromBytes(b[..k]), 10) == |payload|
      && k + |payload| + 2 <= |b|
  {
    var p := LengthPrefix(|payload|);
    assert p + payload + [tag] + rest == p + (payload + [tag] + rest);
    ParseLengthPrefix(|payload|, payload + [tag] + rest);
  }

  /** The payload, tag and trailing bytes of an encoding sit where `Parse`
      looks for them. */
  lemma EncodingBody(p: Bytes, payload: Bytes, tag: byte, rest: Bytes)
    requires |p| >= 1
    ensures var b := p + payload + [tag] + rest; var k := |p| - 1; var n := |payload|;
      && b[k + 1..k + 1 + n] == payload
      && b[k + 1 + n] == tag
      && b[k + 2 + n..] == rest
  {
  }

  lemma ParseStringEncoding(payload: Bytes, rest: Bytes)
    ensures Parse(LengthPrefix(|payload|) + payload + [Comma] + rest) == Some((TStr(payload), rest))
  {
    var p := LengthPrefix(|payload|);
    var b := p + payload + [Comma] + rest;
    var k, n := |p| - 1, |payload|;
    assert IndexOf(b, Colon) == k && 0 < k < |b| && k + n + 2 <= |b|
      && AllDigitsIn(FromBytes(b[..k]), 10) && ValueIn(FromBytes(b[..k]), 10) == n by {
      EncodingPrefix(payload, Comma, rest);
    }
    assert b[k + 1..k + 1 + n] == payload && b[k + 1 + n] == Comma && b[k + 2 + n..] == rest by {
      EncodingBody(p, payload, Comma, rest);
    }
    ParseAt(b, k, n);
  }

  lemma ParseListEncoding(payload: Bytes, rest: Bytes)
    ensures Parse(LengthPrefix(|payload|) + payload + [CloseBracket] + rest) ==
      (match ParseAll(payload)
       case Some(items) => Some((TList(items), rest))
       case None => None)
  {
    var p := LengthPrefix(|payload|);
    var b := p + payload + [CloseBracket] + rest;
    var k, n := |p| - 1, |payload|;
    assert IndexOf(b, Colon) == k && 0 < k < |b| && k + n + 2 <= |b|
      && AllDigitsIn(FromBytes(b[..k]), 10) && ValueIn(FromBytes(b[..k]), 10) == n by {
      EncodingPrefix(payload, CloseBracket, rest);
    }
    assert b[k + 1..k + 1 + n] == payload && b[k + 1 + n] == CloseBracket && b[k + 2 + n..] == rest by {
      EncodingBody(p, payload, CloseBracket, rest);
    }
    ParseAt(b, k, n);
  }

  /** Decoding an encoding gives the value back, together with whatever
      followed the encoding. */
  lemma {:induction false} ParseDump(v: TValue, rest: Bytes)
    ensures Parse(Dump(v) + rest) == Some((v, rest))
    decreases v, 1
  {
    match v
    case TStr(s) =>
      ParseStringEncoding(s, rest);
    case TList(items) =>
      ParseListEncoding(DumpAll(items), rest);
      ParseAllDumpAll(items);
  }

  lemma {:induction false} ParseAllDumpAll(items: seq<TValue>)
    ensures ParseAll(DumpAll(items)) == Some(items)
    decreases items, 0
  {
    if items != [] {
      assert items[0] < TList(items);
      var d := DumpAll(items);
      ParseDump(items[0], DumpAll(items[1..]));
      ParseAllDumpAll(items[1..]);
      DumpNonEmpty(items[0]);
      assert items == [items[0]] + items[1..];
    }
  }

  lemma DumpNonEmpty(v: TValue)
    ensures |Dump(v)| >= 3
  {
  }

  lemma ColonByte()
    ensures ToBytes(":") == [Colon]
  {
  }

  lemma CommaByte()
    ensures ToBytes(",") == [Comma]
  {
  }

  /** A string whose characters are bytes is encoded as its decimal length,
      a colon, the string itself and a comma. */
  lemma DumpString(s: string)
    ensures Dump(TStr(ToBytes(s))) == ToBytes(NatToString(|s|) + ":" + s + ",")
  {
    var d := NatToString(|s|);
    ColonByte();
    CommaByte();
    ToBytesConcat(d, ":");
    ToBytesConcat(d + ":", s);
    ToBytesConcat(d + ":" + s, ",");
  }
}
