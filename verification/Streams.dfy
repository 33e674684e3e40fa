// A socket as the byte sequences still to arrive and already sent, with receives and sends that may
// be short in any way, and the two layers the server and the client read it through.

module Streams {
  import opened Text

  const READ_BUFF_SIZE: nat := 4096

  class Socket {
    const reliable: bool     // no timeout and no error, ever
    var incoming: string     // what the peer has sent and nobody has received; then end of stream
    var outgoing: string     // what has been sent to the peer

    constructor (reliable: bool, incoming: string)
      ensures this.reliable == reliable && this.incoming == incoming && outgoing == ""
    {
      this.reliable := reliable;
      this.incoming := incoming;
      this.outgoing := "";
    }

    // select_read and select_write.
    method Ready() returns (ready: bool)
      ensures reliable ==> ready
    {
      var waits: bool := *;
      ready := reliable || waits;
    }

    // recv: an error, or some of the bytes available, none only at the end of the stream.
    method Recv(max: nat) returns (n: int, data: string)
      modifies this`incoming
      ensures n < 0 ==> !reliable && data == "" && incoming == old(incoming)
      ensures n >= 0 ==>
        && n == |data| <= max && data + incoming == old(incoming)
        && (n == 0 <==> max == 0 || old(incoming) == "")
    {
      var fails: bool := *;
      if !reliable && fails { return -1, ""; }
      var most := if |incoming| < max then |incoming| else max;
      var k: int := *;
      n := if k < 1 then (if most == 0 then 0 else 1) else if k > most then most else k;
      data := incoming[..n];
      incoming := incoming[n..];
    }

    // send: an error, or some of the bytes.
    method Send(data: string) returns (n: int)
      modifies this`outgoing
      ensures n < 0 ==> !reliable && outgoing == old(outgoing)
      ensures n >= 0 ==> n <= |data| && (n == 0 <==> data == "") && outgoing == old(outgoing) + data[..n]
    {
      var fails: bool := *;
      if !reliable && fails { return -1; }
      var k: int := *;
      n := if k < 1 then (if data == "" then 0 else 1) else if k > |data| then |data| else k;
      outgoing := outgoing + data[..n];
    }
  }

  class SocketStream {
    const sock: Socket
    const readBuff: array<char>
    var off: nat
    var contentSize: nat

    ghost predicate Valid()
      reads this
    {
      readBuff.Length == READ_BUFF_SIZE && off <= contentSize <= READ_BUFF_SIZE
    }

    // Everything the stream will still deliver.
    ghost function Rest(): string
      requires Valid()
      reads this, readBuff, sock
    {
      readBuff[off..contentSize] + sock.incoming
    }

    constructor (sock: Socket)
      ensures Valid() && this.sock == sock && fresh(readBuff) && Rest() == sock.incoming
    {
      this.sock := sock;
      readBuff := new char[READ_BUFF_SIZE];
      off, contentSize := 0, 0;
    }

    method Read(size0: nat) returns (n: int, data: string)
      requires Valid()
      modifies this, readBuff, sock`incoming
      ensures Valid()
      ensures n < 0 ==> !sock.reliable && data == "" && Rest() == old(Rest())
      ensures n >= 0 ==>
        && n == |data| <= size0 && data + Rest() == old(Rest())
        && (n == 0 <==> size0 == 0 || old(Rest()) == "")
    {
      var size := if size0 < SSIZE_MAX then size0 else SSIZE_MAX;
      if off < contentSize {
        var remaining := contentSize - off;
        if size <= remaining {
          data := readBuff[off..off + size];
          off := off + size;
          n := size;
        } else {
          data := readBuff[off..off + remaining];
          off := off + remaining;
          n := remaining;
        }
        return n, data;
      }
      assert Rest() == sock.incoming;
      var ready := sock.Ready();
      if !ready { return -1, ""; }
      off, contentSize := 0, 0;
      if size < READ_BUFF_SIZE {
        n, data := ReadThroughBuffer(size);
      } else {
        n, data := sock.Recv(size);
      }
    }

    method Write(data: string) returns (n: int)
      modifies sock`outgoing
      ensures n < 0 ==> !sock.reliable && sock.outgoing == old(sock.outgoing)
      ensures n >= 0 ==>
        && n <= |data| && (n == 0 <==> data == "")
        && sock.outgoing == old(sock.outgoing) + data[..n]
    {
      var ready := sock.Ready();
      if !ready { return -1; }
      n := sock.Send(data);
    }

    // What recv writes at read_buff_.data().
    method Fill(bytes: string)
      requires Valid() && |bytes| <= READ_BUFF_SIZE
      modifies readBuff
      ensures readBuff[..|bytes|] == bytes
    {
      for i := 0 to |bytes|
        invariant readBuff[..i] == bytes[..i]
      {
        readBuff[i] := bytes[i];
      }
    }

    // A receive of up to a full buffer, of which at most size bytes are handed on.
    method ReadThroughBuffer(size: nat) returns (n: int, data: string)
      requires Valid() && off == contentSize == 0 && size < READ_BUFF_SIZE
      modifies this, readBuff, sock`incoming
      ensures Valid()
      ensures n < 0 ==> !sock.reliable && data == "" && Rest() == old(Rest())
      ensures n >= 0 ==>
        && n == |data| <= size && data + Rest() == old(Rest())
        && (n == 0 <==> size == 0 || old(Rest()) == "")
    {
      assert Rest() == sock.incoming;
      var got, bytes := sock.Recv(READ_BUFF_SIZE);
      if got <= 0 {
        assert Rest() == sock.incoming;
        return got, "";
      }
      Fill(bytes);
      if got <= size {
        assert Rest() == sock.incoming;
        return got, readBuff[..got];
      }
      data := readBuff[..size];
      assert data == bytes[..size];
      off := size;
      contentSize := got;
      n := size;
      assert bytes[..size] + (bytes[size..] + sock.incoming) == bytes + sock.incoming;
      assert readBuff[off..contentSize] == bytes[size..];
    }
  }

  // ------------------------------------------------------------------------------------------
  // Lines

  // Up to and including the first newline, or everything.
  function FirstLine(s: string): (line: string)
    ensures |line| <= |s| && line == s[..|line|]
    ensures s != "" ==> line != ""
  {
    if s == "" then ""
    else if s[0] == '\n' then "\n"
    else [s[0]] + FirstLine(s[1..])
  }

  lemma {:induction false} FirstLineIs(text: string, rest: string)
    requires '\n' !in text
    ensures FirstLine(text + "\n" + rest) == text + "\n"
    ensures rest == "" ==> FirstLine(text + rest) == text
  {
    if text == "" {
      assert text + "\n" + rest == "\n" + rest;
    } else {
      assert (text + "\n" + rest)[1..] == text[1..] + "\n" + rest;
      assert (text + rest)[1..] == text[1..] + rest;
      FirstLineIs(text[1..], rest);
      assert text == [text[0]] + text[1..];
    }
  }

  lemma EndOfLine(line: string, all: string)
    requires '\n' !in line && line + "" == all
    ensures FirstLine(all) == line
  {
    FirstLineIs(line, "");
  }

  lemma NextByte(line: string, byte: char, rest: string, all: string)
    requires '\n' !in line && line + ([byte] + rest) == all
    ensures line + [byte] + rest == all
    ensures byte == '\n' ==> FirstLine(all) == line + [byte]
    ensures byte != '\n' ==> '\n' !in line + [byte]
  {
    assert line + [byte] + rest == all;
    FirstLineIs(line, rest);
  }

  predicate EndsWithCrlf(line: string)
    ensures EndsWithCrlf(line) ==> |line| >= 2
  {
    |line| >= 2 && line[|line| - 2] == '\r' && line[|line| - 1] == '\n'
  }

  class StreamLineReader {
    const strm: SocketStream
    const fixedBuffer: array<char>
    var used: nat
    var growable: string

    ghost predicate Valid()
      reads this, fixedBuffer, strm
      ensures Valid() ==> strm.Valid()
    {
      && strm.Valid() && fixedBuffer != strm.readBuff
      && fixedBuffer.Length >= 2 && used < fixedBuffer.Length
      && (growable != "" ==> used == fixedBuffer.Length - 1)
      && (growable == "" && used > 0 ==> fixedBuffer[used] == '\0')
    }

    // What strcmp and strtoul on ptr() rely on once a line has been read.
    ghost predicate Terminated()
      requires Valid()
      reads this, fixedBuffer, strm
    {
      growable == "" ==> fixedBuffer[used] == '\0'
    }

    // ptr() and size().
    function Line(): string
      requires Valid()
      reads this, fixedBuffer, strm
    {
      if growable == "" then fixedBuffer[..used] else growable
    }

    constructor (strm: SocketStream, fixedBuffer: array<char>)
      requires strm.Valid() && fixedBuffer.Length >= 2 && fixedBuffer != strm.readBuff
      ensures Valid() && this.strm == strm && this.fixedBuffer == fixedBuffer
    {
      this.strm := strm;
      this.fixedBuffer := fixedBuffer;
      used := 0;
      growable := "";
    }

    method Append(c: char)
      requires Valid()
      modifies this, fixedBuffer
      ensures Valid() && Line() == old(Line()) + [c] && Terminated()
    {
      if used < fixedBuffer.Length - 1 {
        fixedBuffer[used] := c;
        used := used + 1;
        fixedBuffer[used] := '\0';
      } else {
        if growable == "" {
          assert fixedBuffer[used] == '\0';
          growable := fixedBuffer[..used];
        }
        growable := growable + [c];
      }
    }

    // One byte of the line: read and append.
    method AppendByte() returns (n: int, byte: char)
      requires Valid()
      modifies this, fixedBuffer, strm, strm.readBuff, strm.sock`incoming
      ensures Valid()
      ensures n < 0 ==> !strm.sock.reliable
      ensures n == 0 ==> old(strm.Rest()) == ""
      ensures n <= 0 ==> Line() == old(Line()) && strm.Rest() == old(strm.Rest())
      ensures n <= 0 && old(Terminated()) ==> Terminated()
      ensures n > 0 ==>
        Line() == old(Line()) + [byte] && [byte] + strm.Rest() == old(strm.Rest()) && Terminated()
    {
      var data;
      n, data := strm.Read(1);
      byte := '\0';
      if n > 0 {
        byte := data[0];
        assert data == [byte];
        Append(byte);
      }
    }

    method Clear()
      requires Valid()
      modifies this
      ensures Valid() && Line() == ""
    {
      used := 0;
      growable := "";
    }

    // On success the line is in place and, in the fixed buffer, NUL-terminated; which buffer holds
    // it, and how large the fixed one is, shows nowhere.
    method GetLine() returns (ok: bool)
      requires Valid()
      modifies this, fixedBuffer, strm, strm.readBuff, strm.sock`incoming
      ensures Valid()
      ensures Line() + strm.Rest() == old(strm.Rest())
      ensures ok ==> Line() == FirstLine(old(strm.Rest())) && Line() != "" && Terminated()
      ensures !ok ==> old(strm.Rest()) == "" || !strm.sock.reliable
    {
      hide FirstLine, Valid, Line, Terminated;
      Clear();
      ghost var all := strm.Rest();
      assert "" + all == all;
      var i: nat := 0;
      while true
        invariant Valid() && i == |Line()|
        invariant i > 0 ==> Terminated()
        invariant Line() + strm.Rest() == all && '\n' !in Line()
        decreases |strm.Rest()|
      {
        ghost var line := Line();
        var n, byte := AppendByte();
        if n < 0 { return false; }
        if n == 0 {
          if i == 0 { return false; }
          EndOfLine(line, all);
          return true;
        }
        NextByte(line, byte, strm.Rest(), all);
        if byte == '\n' { return true; }
        i := i + 1;
      }
    }

    predicate EndWithCrlf()
      requires Valid()
      reads this, fixedBuffer, strm
    {
      EndsWithCrlf(Line())
    }
  }
}
