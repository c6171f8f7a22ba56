/**
 * The ASCII transmission mode (MODBUS over Serial Line Specification and
 * Implementation Guide V1.02, section 2.5.2): a frame is a colon, the
 * message frame and its LRC as upper-case hexadecimal text, and a carriage
 * return and line feed.
 */
module ModbusAsciiTransport {
  import opened Wrappers
  import opened Bytes
  import opened Exceptions
  import opened Messages
  import opened ModbusUtility
  import opened StreamResources
  import opened StreamResourceUtility
  import AbstractModbusMessage

  /** The ASCII code of the colon that starts a frame. */
  const Colon: byte := 58

  /** The frame written for a message: ':' + hex(message frame) + hex(LRC) + CR LF. */
  function BuildMessageFrame(message: Message): (r: seq<byte>)
    ensures |r| == 1 + 2 * |AbstractModbusMessage.MessageFrame(message)| + 2 + 2
    ensures r[0] == Colon && r[|r| - 2..] == [13, 10]
  {
    var msgFrame := AbstractModbusMessage.MessageFrame(message);
    [Colon] + GetAsciiBytes(msgFrame) + GetAsciiBytes([CalculateLrc(msgFrame)]) + [13, 10]
  }

  /** The LRC of the message's own frame is the last byte received. */
  predicate ChecksumsMatch(message: Message, messageFrame: seq<byte>)
    requires |messageFrame| > 0
    ensures ChecksumsMatch(message, messageFrame)
      <==> (Sum(AbstractModbusMessage.MessageFrame(message)) + messageFrame[|messageFrame| - 1]) % 0x100 == 0
  {
    CalculateLrc(AbstractModbusMessage.MessageFrame(message)) == messageFrame[|messageFrame| - 1]
  }

  /**
   * The frame a received line holds: the line without its first character,
   * read as hexadecimal. An empty line raises ArgumentOutOfRangeException,
   * text that is not hexadecimal FormatException, and a frame of fewer than
   * three bytes IOException.
   */
  function FrameOfLine(line: string): (r: Result<seq<byte>, Exception>)
    ensures |line| == 0 ==> r == Failure(ArgumentOutOfRangeException)
    ensures r.Success? ==> |r.value| >= 3 && HexToBytes(line[1..]) == Success(r.value)
    ensures |line| > 0 && HexToBytes(line[1..]).Success? && |HexToBytes(line[1..]).value| < 3 ==>
      r == Failure(IOException)
    ensures r.Failure? ==> r.error in {ArgumentOutOfRangeException, FormatException, IOException}
  {
    if |line| == 0 then Failure(ArgumentOutOfRangeException)
    else
      var frame :- HexToBytes(line[1..]);
      if |frame| < 3 then Failure(IOException) else Success(frame)
  }

  /**
   * Reads a line from the stream and returns the frame it holds. What is
   * read is the stream's input up to its first carriage return and line
   * feed.
   */
  method ReadRequestResponse(stream: StreamResource) returns (r: Result<seq<byte>, Exception>)
    modifies stream`input, stream`chunks
    ensures r.Success? ==> (NewLineIndex(old(stream.input)).Some?
      && r == FrameOfLine(Text(old(stream.input)[..NewLineIndex(old(stream.input)).value]))
      && stream.input == old(stream.input)[NewLineIndex(old(stream.input)).value + 2..])
    ensures r.Failure? ==> r.error in {stream.failure, ArgumentOutOfRangeException, FormatException, IOException}
    ensures r.Failure? ==> ((r.error == stream.failure && stream.chunks == [])
      || (NewLineIndex(old(stream.input)).Some?
        && r == FrameOfLine(Text(old(stream.input)[..NewLineIndex(old(stream.input)).value]))
        && stream.input == old(stream.input)[NewLineIndex(old(stream.input)).value + 2..]))
    ensures Unread(stream.input, old(stream.input)) && Unread(stream.chunks, old(stream.chunks))
    ensures |stream.chunks| <= |old(stream.chunks)|
    ensures |stream.chunks| < |old(stream.chunks)| || (old(stream.chunks) == [] && r.Failure? && r.error == stream.failure)
  {
    var line :- ReadLine(stream);
    r := FrameOfLine(line);
  }

  /** The text of ASCII bytes is the text they were made from. */
  lemma {:induction false} TextOfAscii(s: string)
    requires forall i :: 0 <= i < |s| ==> s[i] as int < 0x80
    ensures Text(AsciiBytes(s)) == s
  {
    var t := Text(AsciiBytes(s));
    assert forall i :: 0 <= i < |s| ==> t[i] == s[i];
  }

  lemma TextConcat(a: seq<byte>, b: seq<byte>)
    ensures Text(a + b) == Text(a) + Text(b)
  {
    assert forall i :: 0 <= i < |a + b| ==> Text(a + b)[i] == (Text(a) + Text(b))[i];
  }

  /** The hexadecimal text of a frame holds no carriage return. */
  lemma HexBytesAreDigits(data: seq<byte>)
    ensures forall i :: 0 <= i < |GetAsciiBytes(data)| ==> GetAsciiBytes(data)[i] >= 48
    ensures Text(GetAsciiBytes(data)) == GetAsciiChars(data)
  {
    HexCharsAreAscii(data);
    TextOfAscii(GetAsciiChars(data));
  }

  lemma GetAsciiBytesConcat(a: seq<byte>, b: seq<byte>)
    ensures GetAsciiBytes(a + b) == GetAsciiBytes(a) + GetAsciiBytes(b)
  {
    GetAsciiCharsConcat(a, b);
    HexCharsAreAscii(a + b);
    var l, r := GetAsciiBytes(a + b), GetAsciiBytes(a) + GetAsciiBytes(b);
    assert forall i :: 0 <= i < |l| ==> l[i] == r[i];
  }

  /**
   * A line of the hexadecimal text of `data` between a colon and a carriage
   * return and line feed, followed by anything, reads back as `data`.
   */
  lemma HexLineRoundTrip(data: seq<byte>, rest: seq<byte>)
    requires |data| >= 3
    ensures var line := [Colon] + GetAsciiBytes(data) + [13, 10] + rest;
      NewLineIndex(line) == Some(1 + 2 * |data|) && FrameOfLine(Text(line[..1 + 2 * |data|])) == Success(data)
  {
    var hex := GetAsciiBytes(data);
    var line := [Colon] + hex + [13, 10] + rest;
    HexLineText(data);
    HexLineEnd(hex, rest);
    assert line[..1 + |hex|] == [Colon] + hex;
  }

  /** The first carriage return and line feed after a colon and hexadecimal text is the one that ends it. */
  lemma HexLineEnd(hex: seq<byte>, rest: seq<byte>)
    requires forall i :: 0 <= i < |hex| ==> hex[i] >= 48
    ensures NewLineIndex([Colon] + hex + [13, 10] + rest) == Some(1 + |hex|)
  {
    var line := [Colon] + hex + [13, 10] + rest;
    forall j | 0 <= j < 1 + |hex|
      ensures !NewLineAt(line, j)
    {
      if j > 0 {
        assert line[j] == hex[j - 1];
      }
    }
    assert NewLineAt(line, 1 + |hex|);
    NewLineIndexIs(line, 1 + |hex|);
  }

  /** The text of a colon and the hexadecimal text of `data` holds `data`. */
  lemma HexLineText(data: seq<byte>)
    requires |data| >= 3
    ensures forall i :: 0 <= i < |GetAsciiBytes(data)| ==> GetAsciiBytes(data)[i] >= 48
    ensures FrameOfLine(Text([Colon] + GetAsciiBytes(data))) == Success(data)
  {
    var hex := GetAsciiBytes(data);
    HexBytesAreDigits(data);
    TextConcat([Colon], hex);
    var text := Text([Colon] + hex);
    assert text[1..] == GetAsciiChars(data);
    HexRoundTrip(data);
  }

  /**
   * The frame written for a message, followed by anything, reads back as a
   * line holding the message frame followed by its LRC, and that frame
   * passes the checksum test against the message.
   */
  lemma FrameRoundTrip(message: Message, rest: seq<byte>)
    ensures var built := BuildMessageFrame(message);
      var frame := AbstractModbusMessage.MessageFrame(message);
      NewLineIndex(built + rest) == Some(|built| - 2)
      && FrameOfLine(Text((built + rest)[..|built| - 2])) == Success(frame + [CalculateLrc(frame)])
      && ChecksumsMatch(message, frame + [CalculateLrc(frame)])
  {
    LineRoundTrip(AbstractModbusMessage.MessageFrame(message), rest);
  }

  /** FrameRoundTrip for the bytes of any message frame. */
  lemma LineRoundTrip(frame: seq<byte>, rest: seq<byte>)
    requires |frame| >= 2
    ensures var built := [Colon] + GetAsciiBytes(frame) + GetAsciiBytes([CalculateLrc(frame)]) + [13, 10];
      NewLineIndex(built + rest) == Some(|built| - 2)
      && FrameOfLine(Text((built + rest)[..|built| - 2])) == Success(frame + [CalculateLrc(frame)])
  {
    var data := frame + [CalculateLrc(frame)];
    GetAsciiBytesConcat(frame, [CalculateLrc(frame)]);
    assert [Colon] + GetAsciiBytes(frame) + GetAsciiBytes([CalculateLrc(frame)]) + [13, 10]
      == [Colon] + GetAsciiBytes(data) + [13, 10];
    HexLineRoundTrip(data, rest);
  }

  /** The line ":110100130025B6" holds the frame 17, 1, 0, 19, 0, 37 followed by its LRC 182. */
  lemma ReadExample()
    ensures FrameOfLine(":110100130025B6") == Success([17, 1, 0, 19, 0, 37, 182])
    ensures CalculateLrc([17, 1, 0, 19, 0, 37]) == 182
  {
    assert GetAsciiChars([17, 1, 0, 19, 0, 37, 182]) == "110100130025B6";
    HexRoundTrip([17, 1, 0, 19, 0, 37, 182]);
    assert ":110100130025B6"[1..] == "110100130025B6";
    LrcExamples();
  }
}
