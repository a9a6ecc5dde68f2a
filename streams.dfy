/** The buffered copy loop that `FileUtils` writes out four times: read at
    most one buffer of bytes, write what was read, stop when `read` answers
    -1. The readable stream is its content and a read position. */
module Streams {
  import opened Common

  newtype Byte = b: int | 0 <= b < 256

  /** `BUFFER_SIZE`, the buffer of both download methods. */
  const DownloadBufferSize: nat := 2048

  /** `1024*10`, the buffer of `zip` and `unZip`. */
  const ArchiveBufferSize: nat := 1024 * 10

  function Min(a: int, b: int): int { if a < b then a else b }

  /** `in.read(buffer, 0, len)` on a stream holding `source` and positioned at
      `pos`: -1 at the end, otherwise the number of bytes copied to the front
      of `buffer` (as many as fit, up to what is left). */
  method Read(source: seq<Byte>, pos: nat, buffer: array<Byte>, len: nat) returns (n: int)
    requires pos <= |source| && 0 < len <= buffer.Length
    modifies buffer
    ensures pos == |source| ==> n == -1
    ensures pos < |source| ==> n == Min(len, |source| - pos)
    ensures n >= 0 ==> buffer[..n] == source[pos..pos + n]
  {
    if pos == |source| {
      return -1;
    }
    n := Min(len, |source| - pos);
    var i := 0;
    while i < n
      invariant 0 <= i <= n
      invariant buffer[..i] == source[pos..pos + i]
    {
      buffer[i] := source[pos + i];
      i := i + 1;
    }
  }

  /** `while ((read = in.read(buffer, 0, size)) != -1) out.write(buffer, 0, read);`
      What is written is the whole input, as the concatenation of the chunks
      read, each of them non-empty and at most one buffer long. */
  method Copy(source: seq<Byte>, bufferSize: nat) returns (written: seq<Byte>, ghost chunks: seq<seq<Byte>>)
    requires bufferSize > 0
    ensures written == source
    ensures Flatten(chunks) == written
    ensures forall k :: 0 <= k < |chunks| ==> 0 < |chunks[k]| <= bufferSize
  {
    var buffer := new Byte[bufferSize];
    var pos := 0;
    written, chunks := [], [];
    while true
      invariant 0 <= pos <= |source|
      invariant written == source[..pos]
      invariant Flatten(chunks) == written
      invariant forall k :: 0 <= k < |chunks| ==> 0 < |chunks[k]| <= bufferSize
      decreases |source| - pos
    {
      var read := Read(source, pos, buffer, bufferSize);
      if read == -1 {
        break;
      }
      assert source[..pos + read] == source[..pos] + source[pos..pos + read];
      written := written + buffer[..read];
      chunks := chunks + [buffer[..read]];
      pos := pos + read;
    }
    assert source[..pos] == source;
  }

  /** `downloadFile(InputStream, String)`: the response body is exactly the
      stream's content, sent in chunks of at most `BUFFER_SIZE` bytes. */
  method DownloadBody(content: seq<Byte>) returns (body: seq<Byte>, ghost chunks: seq<seq<Byte>>)
    ensures body == content
    ensures Flatten(chunks) == body
    ensures forall k :: 0 <= k < |chunks| ==> 0 < |chunks[k]| <= DownloadBufferSize
  {
    body, chunks := Copy(content, DownloadBufferSize);
  }
}
