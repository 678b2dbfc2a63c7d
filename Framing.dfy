/** The text frames of the protocol: the command and the filename. Each is
    sent as its raw bytes with no terminator and no length; the server takes
    whatever one recv into a 256-byte buffer returns, writes a NUL after it
    and reads the buffer back as a C string. */
module Framing {
  import opened Wire

  datatype Command = Upload | Download | Quit | Invalid

  /** The bytes of an ASCII string literal. */
  function Ascii(s: string): (b: seq<Byte>)
    requires forall i :: 0 <= i < |s| ==> s[i] as int < 128
    ensures |b| == |s|
  {
    seq(|s|, i requires 0 <= i < |s| => s[i] as int as Byte)
  }

  /** The text that names a command, as the client sends it. */
  function CommandText(c: Command): (t: seq<Byte>)
    requires c != Invalid
    ensures 0 < |t| < FrameBufferSize
  {
    match c
    case Upload => Ascii("Upload")
    case Download => Ascii("Download")
    case Quit => Ascii("Quit")
  }

  /** `command == "Upload"` ... : the exact-match comparison chain. */
  function Classify(text: seq<Byte>): (c: Command)
    ensures c != Invalid ==> text == CommandText(c)
  {
    if text == Ascii("Upload") then Upload
    else if text == Ascii("Download") then Download
    else if text == Ascii("Quit") then Quit
    else Invalid
  }

  /** Every command's text classifies as that command, and nothing else
      does: the classification is exact. */
  lemma ClassifyCommandText(c: Command, text: seq<Byte>)
    requires c != Invalid
    ensures Classify(CommandText(c)) == c
    ensures Classify(text) == c <==> text == CommandText(c)
  {
    assert |Ascii("Upload")| == 6 && |Ascii("Download")| == 8 && |Ascii("Quit")| == 4;
  }

  /** `std::string(buffer)`: the bytes before the first NUL. */
  function UpToNul(s: seq<Byte>): (t: seq<Byte>)
    ensures t <= s
    ensures forall i :: 0 <= i < |t| ==> t[i] != 0
    ensures |t| < |s| ==> s[|t|] == 0
  {
    if s == [] || s[0] == 0 then []
    else [s[0]] + UpToNul(s[1..])
  }

  /** What the server makes of one recv into a 256-byte frame buffer. */
  datatype Frame =
    | Text(text: seq<Byte>)
      /** `buffer[n] = '\0'` with n outside the buffer: undefined behaviour. */
    | Overrun(index: int)

  /** `char buffer[256] = {0}; n = recv(socket, buffer, 256, 0);
      buffer[n] = '\0'; std::string text(buffer);` where recv returned
      `count` and wrote `data`. The NUL write is in bounds only when
      0 <= count < 256; a full buffer (count == 256) or a failed recv
      (count == -1) writes outside it. */
  method ReadFrame(count: int, data: seq<Byte>) returns (f: Frame)
    requires -1 <= count <= FrameBufferSize
    requires |data| == Max(count, 0)
    ensures f.Overrun? <==> (count < 0 || count == FrameBufferSize)
    ensures f.Overrun? ==> f.index == count
    ensures f.Text? ==> f.text == UpToNul(data)
    ensures f == FrameOf(count, data)
  {
    var buffer := new Byte[FrameBufferSize](_ => 0);
    forall i | 0 <= i < |data| {
      buffer[i] := data[i];
    }
    if count < 0 || count >= FrameBufferSize {
      return Overrun(count);
    }
    buffer[count] := 0;
    var len := 0;
    while buffer[len] != 0
      invariant 0 <= len <= count
      invariant forall i :: 0 <= i < len ==> buffer[i] != 0
      invariant buffer[..count] == data && buffer[count] == 0
      decreases count - len
    {
      len := len + 1;
    }
    assert buffer[..len] == data[..len];
    NulFreePrefix(data, len);
    f := Text(buffer[..len]);
  }

  /** The NUL-free prefix that ends at a NUL or at the end is UpToNul. */
  lemma {:induction false} NulFreePrefix(s: seq<Byte>, k: nat)
    requires k <= |s|
    requires forall i :: 0 <= i < k ==> s[i] != 0
    requires k < |s| ==> s[k] == 0
    ensures UpToNul(s) == s[..k]
  {
    if k > 0 {
      NulFreePrefix(s[1..], k - 1);
      assert s[..k] == [s[0]] + s[1..][..k - 1];
    }
  }

  /** The frame the server reads from the count and bytes of one recv. */
  function FrameOf(count: int, data: seq<Byte>): (f: Frame)
    ensures f.Overrun? <==> count < 0 || FrameBufferSize <= count
    ensures f.Overrun? ==> f.index == count
    ensures f.Text? ==> f.text <= data && (forall i :: 0 <= i < |f.text| ==> f.text[i] != 0)
    ensures f.Text? && |f.text| < |data| ==> data[|f.text|] == 0
  {
    if 0 <= count < FrameBufferSize then Text(UpToNul(data)) else Overrun(count)
  }

  /** A frame the client sends whole, with no NUL inside and fewer than 256
      bytes, reaches the server unchanged. */
  lemma FrameOfSentText(text: seq<Byte>)
    requires 0 < |text| < FrameBufferSize
    requires forall i :: 0 <= i < |text| ==> text[i] != 0
    ensures FrameOf(|text|, text) == Text(text)
  {
    NulFreePrefix(text, |text|);
  }
}
