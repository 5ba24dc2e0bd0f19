/** Ruby's StringIO, the in-memory stream that carries request bodies,
    response bodies and WebSocket payloads.

    The connector depends on its positional behaviour: a stream opened for
    reading and writing ('r+') overwrites at the current position, one opened
    for appending ('a+') always writes at the end, `truncate` leaves the
    position where it was, and writing past the end fills the gap with NUL
    bytes.
 */
module Buffers {
  import opened Wrappers
  import opened Text

  datatype Mode = ReadWrite | Append

  datatype Buffer = Buffer(data: Bytes, pos: nat, mode: Mode)

  /** `StringIO.new( str, mode )`: positioned at the start. */
  function Open(data: Bytes, mode: Mode): (b: Buffer)
    ensures b.data == data && b.pos == 0 && b.mode == mode
  {
    Buffer(data, 0, mode)
  }

  function Zeros(n: nat): (z: Bytes)
    ensures |z| == n && forall i :: 0 <= i < n ==> z[i] == 0
  {
    seq(n, _ => 0)
  }

  /** Where a write lands: the end in append mode, the position otherwise. */
  function WriteOffset(b: Buffer): nat {
    if b.mode == Append then |b.data| else b.pos
  }

  /** `StringIO#write`: an empty write changes nothing; otherwise the bytes
      replace whatever is at the write offset, the stream grows as needed
      (NUL-filling any gap), and the position moves past the written bytes. */
  function Write(b: Buffer, s: Bytes): (r: Buffer)
    ensures r.mode == b.mode
    ensures s == [] ==> r == b
    ensures s != [] ==> var at := WriteOffset(b);
      && r.pos == at + |s|
      && |r.data| == (if at + |s| <= |b.data| then |b.data| else at + |s|)
      && r.data[at..at + |s|] == s
      && (forall i :: 0 <= i < at ==> r.data[i] == (if i < |b.data| then b.data[i] else 0))
      && (forall i :: at + |s| <= i < |r.data| ==> r.data[i] == b.data[i])
  {
    if s == [] then b
    else
      var at := WriteOffset(b);
      var padded := if at <= |b.data| then b.data else b.data + Zeros(at - |b.data|);
      var tail := if at + |s| <= |padded| then padded[at + |s|..] else [];
      Buffer(padded[..at] + s + tail, at + |s|, b.mode)
  }

  /** `StringIO#puts( line )`: the line, then a newline unless it already ends
      with one. */
  function Puts(b: Buffer, line: Bytes): (r: Buffer)
    ensures r.mode == b.mode
  {
    if line != [] && line[|line| - 1] == 10 then Write(b, line) else Write(b, line + [10])
  }

  /** `StringIO#read` with no length: everything from the position to the
      end; the position moves to the end (it stays put when already there). */
  function ReadAll(b: Buffer): (r: (Bytes, Buffer))
    ensures r.1.data == b.data && r.1.mode == b.mode
    ensures b.pos <= |b.data| ==> r.0 == b.data[b.pos..] && r.1.pos == |b.data|
    ensures b.pos > |b.data| ==> r.0 == [] && r.1 == b
  {
    if b.pos >= |b.data| then ([], b) else (b.data[b.pos..], b.(pos := |b.data|))
  }

  /** `StringIO#readpartial( n )`: up to n bytes from the position.  A
      negative length raises ArgumentError and reading at the end raises
      EOFError; a zero length gives an empty string without moving. */
  function ReadPartial(b: Buffer, n: int): (r: Result<(Bytes, Buffer)>)
    ensures r.Err? <==> n < 0 || (n > 0 && b.pos >= |b.data|)
    ensures r.Ok? ==> var (chunk, b') := r.value;
      && |chunk| <= n && b'.data == b.data && b'.mode == b.mode
      && b'.pos == b.pos + |chunk|
      && (chunk != [] ==> b'.pos <= |b.data| && b.data[b.pos..b'.pos] == chunk)
      && (n > 0 ==> chunk != [])
  {
    if n < 0 then Fail(ArgumentError, "negative length " + IntToString(n) + " given")
    else if n == 0 then Ok(([], b))
    else if b.pos >= |b.data| then Fail(EndOfFile, "end of file reached")
    else
      var k := if b.pos + n <= |b.data| then b.pos + n else |b.data|;
      Ok((b.data[b.pos..k], b.(pos := k)))
  }

  predicate Eof(b: Buffer) { b.pos >= |b.data| }

  function Size(b: Buffer): nat { |b.data| }

  function Rewind(b: Buffer): (r: Buffer)
    ensures r.data == b.data && r.mode == b.mode && r.pos == 0
  {
    b.(pos := 0)
  }

  /** `StringIO#truncate( n )`: the contents are cut (or NUL-extended) to n
      bytes and the position is left unchanged. */
  function Truncate(b: Buffer, n: nat): (r: Buffer)
    ensures |r.data| == n && r.pos == b.pos && r.mode == b.mode
    ensures forall i :: 0 <= i < n ==> r.data[i] == (if i < |b.data| then b.data[i] else 0)
  {
    if n <= |b.data| then b.(data := b.data[..n]) else b.(data := b.data + Zeros(n - |b.data|))
  }

  /** The number of bytes left to read. */
  function Unread(b: Buffer): nat {
    if b.pos <= |b.data| then |b.data| - b.pos else 0
  }

  /** `IO.copy_stream( src, dst, limit )`: copies `limit` bytes from the
      source position into the destination, or all that is left if that is
      less, advancing both. */
  function CopyStream(src: Buffer, dst: Buffer, limit: nat): (r: (Buffer, Buffer))
    ensures r.0.data == src.data && r.0.mode == src.mode
    ensures r.0.pos == src.pos + (if limit <= Unread(src) then limit else Unread(src))
    ensures r.0.pos > src.pos ==> r.0.pos <= |src.data| && r.1 == Write(dst, src.data[src.pos..r.0.pos])
    ensures r.0.pos == src.pos ==> r.1 == dst
  {
    if src.pos >= |src.data| || limit == 0 then (src, dst)
    else
      var k := if src.pos + limit <= |src.data| then src.pos + limit else |src.data|;
      (src.(pos := k), Write(dst, src.data[src.pos..k]))
  }

  /** Into an appending destination, the copied bytes land at its end. */
  lemma CopyStreamAppends(src: Buffer, dst: Buffer, n: nat)
    requires dst.mode == Append && src.pos <= |src.data|
    ensures var (s, d) := CopyStream(src, dst, n);
      s.pos <= |src.data| && d.mode == Append && d.data == dst.data + src.data[src.pos..s.pos]
  {
    var (s, d) := CopyStream(src, dst, n);
    if s.pos > src.pos {
      AppendWrite(dst, src.data[src.pos..s.pos]);
    }
  }

  lemma CopyStreamPositions(src: Buffer, dst: Buffer, a: nat, b: nat)
    ensures var (s1, d1) := CopyStream(src, dst, a);
      CopyStream(s1, d1, b).0 == CopyStream(src, dst, a + b).0
  {
    var (s1, d1) := CopyStream(src, dst, a);
    assert s1.data == src.data && s1.mode == src.mode;
    assert Unread(s1) == Unread(src) - (s1.pos - src.pos);
  }

  /** What `copy_stream` leaves: the source advanced by the bytes copied,
      and those bytes at the end of an appending destination. */
  lemma CopyStreamCopies(src: Buffer, dst: Buffer, n: nat)
    ensures var m := if n <= Unread(src) then n else Unread(src);
      CopyStream(src, dst, n).0 == src.(pos := src.pos + m)
    ensures var m := if n <= Unread(src) then n else Unread(src);
      dst.mode == Append && src.pos <= |src.data| ==>
        CopyStream(src, dst, n).1.data == dst.data + src.data[src.pos..src.pos + m]
  {
    if dst.mode == Append && src.pos <= |src.data| {
      CopyStreamAppends(src, dst, n);
    }
  }

  /** Copying `a` bytes and then `b` more is copying `a + b` bytes at once,
      for a destination that appends. */
  lemma CopyStreamInSteps(src: Buffer, dst: Buffer, a: nat, b: nat)
    requires dst.mode == Append
    ensures var c1 := CopyStream(src, dst, a);
      var c2 := CopyStream(c1.0, c1.1, b);
      var c := CopyStream(src, dst, a + b);
      c2.0 == c.0 && c2.1.data == c.1.data
  {
    CopyStreamPositions(src, dst, a, b);
    if src.pos <= |src.data| {
      CopyStreamDataInSteps(src, dst, a, b);
    }
  }

  lemma CopyStreamDataInSteps(src: Buffer, dst: Buffer, a: nat, b: nat)
    requires dst.mode == Append && src.pos <= |src.data|
    ensures var c1 := CopyStream(src, dst, a);
      CopyStream(c1.0, c1.1, b).1.data == CopyStream(src, dst, a + b).1.data
  {
    CopyStreamPositions(src, dst, a, b);
    var c1 := CopyStream(src, dst, a);
    var c := CopyStream(src, dst, a + b);
    CopyStreamAppends(src, dst, a);
    CopyStreamAppends(c1.0, c1.1, b);
    CopyStreamAppends(src, dst, a + b);
    SlicesJoin(dst.data, src.data, src.pos, c1.0.pos, c.0.pos);
  }

  lemma SlicesJoin(x: Bytes, s: Bytes, i: nat, j: nat, k: nat)
    requires i <= j <= k <= |s|
    ensures (x + s[i..j]) + s[j..k] == x + s[i..k]
  {
    assert s[i..k] == s[i..j] + s[j..k];
  }

  /** Writes to an append-mode stream concatenate, wherever the position is. */
  lemma AppendWrite(b: Buffer, s: Bytes)
    requires b.mode == Append
    ensures Write(b, s).data == b.data + s
  {
    if s != [] {
      var r := Write(b, s);
      assert r.data[..|b.data|] == b.data;
      assert r.data[|b.data|..] == s;
      assert r.data == r.data[..|b.data|] + r.data[|b.data|..];
    }
  }

  lemma AppendWritesConcatenate(b: Buffer, x: Bytes, y: Bytes)
    requires b.mode == Append
    ensures Write(Write(b, x), y).data == b.data + x + y
  {
    var b1 := Write(b, x);
    assert b1.data == b.data + x;
    assert Write(b1, y).data == b1.data + y;
  }

  /** A read-write stream opened on non-empty contents is positioned at the
      start, so a write overwrites the leading bytes instead of appending. */
  lemma ReadWriteOverwritesFromStart(d: Bytes, s: Bytes)
    requires 0 < |s| <= |d|
    ensures Write(Open(d, ReadWrite), s).data == s + d[|s|..]
  {
    var r := Write(Open(d, ReadWrite), s);
    assert r.data == s + d[|s|..];
  }

  /** Writing to an empty stream puts the bytes at the write offset, after
      NUL bytes up to it. */
  lemma WriteToEmpty(b: Buffer, s: Bytes)
    requires b.data == [] && s != []
    ensures Write(b, s).data == Zeros(WriteOffset(b)) + s
  {
    var at := WriteOffset(b);
    var padded := if at <= |b.data| then b.data else b.data + Zeros(at - |b.data|);
    assert padded == Zeros(at);
    assert padded[..at] == Zeros(at);
  }

  /** `puts` of a line that does not end in a newline writes the line and a
      newline. */
  lemma PutsAddsNewline(b: Buffer, line: Bytes)
    requires line == [] || line[|line| - 1] != 10
    ensures Puts(b, line) == Write(b, line + [10])
  {
  }

  /** `puts` on an empty stream: NUL bytes up to the write offset, the line
      and its newline. */
  lemma PutsOnEmpty(b: Buffer, line: Bytes)
    requires b.data == [] && (line == [] || line[|line| - 1] != 10)
    ensures Puts(b, line).data == Zeros(WriteOffset(b)) + line + [10]
  {
    PutsAddsNewline(b, line);
    WriteToEmpty(b, line + [10]);
    assert Zeros(WriteOffset(b)) + (line + [10]) == Zeros(WriteOffset(b)) + line + [10];
  }
}
