/** Inserting the test checksum into a PNG as a text chunk. */
module Png {
  import opened Maybe
  import opened Collections
  import opened Crc

  // ----- what a PNG reader sees (sections 3.2 and 4.2.7 of RFC 2083) -----

  datatype Chunk = Chunk(kind: Bytes, data: Bytes, crc: bv32)

  function Word(a: bv8, b: bv8, c: bv8, d: bv8): bv32 {
    ((a as bv32) << 24) | ((b as bv32) << 16) | ((c as bv32) << 8) | (d as bv32)
  }

  function WordAt(bytes: Bytes, i: nat): bv32
    requires i + 4 <= |bytes|
  {
    Word(bytes[i], bytes[i + 1], bytes[i + 2], bytes[i + 3])
  }

  // One chunk: length, type, data, check value; then the bytes after it.
  function ReadChunk(bytes: Bytes): (r: Option<(Chunk, Bytes)>)
    ensures r.Some? ==> |r.value.1| < |bytes|
  {
    if |bytes| < 12 then None
    else
      var n := WordAt(bytes, 0) as int;
      if |bytes| < 12 + n then None
      else Some((Chunk(bytes[4..8], bytes[8..8 + n], WordAt(bytes, 8 + n)), bytes[12 + n..]))
  }

  function ReadChunks(bytes: Bytes): (r: Option<seq<Chunk>>)
    decreases |bytes|
  {
    if bytes == [] then Some([])
    else
      var first := ReadChunk(bytes);
      if first == None then None
      else
        var rest := ReadChunks(first.value.1);
        if rest == None then None else Some([first.value.0] + rest.value)
  }

  predicate CrcValid(c: Chunk) { c.crc == CrcOf(c.kind + c.data) }

  const IHDR: Bytes := [0x49, 0x48, 0x44, 0x52]
  const TEXT: Bytes := [0x74, 0x45, 0x58, 0x74]                                   // tEXt
  const KEYWORD: Bytes := [0x63, 0x68, 0x65, 0x63, 0x6B, 0x73, 0x75, 0x6D, 0x00]  // checksum, NUL

  // ----- what the program writes -----

  function BigEndian(n: bv32): (r: Bytes)
    ensures |r| == 4
  {
    [((n >> 24) & 0xff) as bv8, ((n >> 16) & 0xff) as bv8, ((n >> 8) & 0xff) as bv8, (n & 0xff) as bv8]
  }

  lemma BigEndianReads(n: bv32)
    ensures Word(BigEndian(n)[0], BigEndian(n)[1], BigEndian(n)[2], BigEndian(n)[3]) == n
  {
  }

  const COMMENT_PREFIX: Bytes := [0x00, 0x00, 0x00, 0x29] + TEXT + KEYWORD
  const CHECKSUM_LENGTH := 32
  const INSERT_OFFSET := 33
  const WRITE_SIZE := 32768

  function CommentBytes(checksum: Bytes): (r: Bytes)
    requires |checksum| >= CHECKSUM_LENGTH
    ensures |r| == 53
  {
    COMMENT_PREFIX + checksum[..CHECKSUM_LENGTH] + BigEndian(CrcOf(TEXT + KEYWORD + checksum[..CHECKSUM_LENGTH]))
  }

  function TextChunk(checksum: Bytes): (c: Chunk)
    requires |checksum| == CHECKSUM_LENGTH
    ensures CrcValid(c)
  {
    Chunk(TEXT, KEYWORD + checksum, CrcOf(TEXT + (KEYWORD + checksum)))
  }

  class ByteVector {
    var bytes: Bytes

    constructor ()
      ensures bytes == []
    {
      bytes := [];
    }

    method Append(more: Bytes)
      modifies this
      ensures bytes == old(bytes) + more
    {
      bytes := bytes + more;
    }

    /** appendIntToVector: most significant byte first. */
    method AppendInt(number: bv32)
      modifies this
      ensures bytes == old(bytes) + BigEndian(number)
    {
      bytes := bytes + [((number >> 24) & 0xff) as bv8];
      bytes := bytes + [((number >> 16) & 0xff) as bv8];
      bytes := bytes + [((number >> 8) & 0xff) as bv8];
      bytes := bytes + [(number & 0xff) as bv8];
    }
  }

  method ConvertChecksumToPNGComment(checksum: Bytes, bytesToAdd: ByteVector, cache: Cache)
    requires |checksum| >= CHECKSUM_LENGTH && cache.Valid()
    modifies bytesToAdd, cache, cache.crcTable
    ensures bytesToAdd.bytes == old(bytesToAdd.bytes) + CommentBytes(checksum)
    ensures cache.Valid()
  {
    bytesToAdd.Append(COMMENT_PREFIX);
    bytesToAdd.Append(checksum[..CHECKSUM_LENGTH]);
    var dataToCrc := COMMENT_PREFIX[4..];
    assert dataToCrc == TEXT + KEYWORD;
    dataToCrc := dataToCrc + checksum[..CHECKSUM_LENGTH];
    var crc32 := cache.ComputeCrc(dataToCrc);
    bytesToAdd.AppendInt(crc32);
  }

  // Standard output that takes only so many more bytes.
  class Stream {
    var written: Bytes
    var room: nat

    constructor (capacity: nat)
      ensures written == [] && room == capacity
    {
      written, room := [], capacity;
    }

    method Write(data: Bytes) returns (n: nat)
      modifies this
      ensures n == if |data| <= old(room) then |data| else old(room)
      ensures written == old(written) + data[..n] && room == old(room) - n
    {
      n := if |data| <= room then |data| else room;
      written, room := written + data[..n], room - n;
    }
  }

  function OffsetAfterIHDRChunk(): nat { 8 + 25 }

  // The PNG with the comment after its header chunk.
  function Body(data: Bytes, checksum: Bytes): (r: Bytes)
    requires |data| >= INSERT_OFFSET && |checksum| >= CHECKSUM_LENGTH
    ensures |r| == |data| + 53
  {
    data[..INSERT_OFFSET] + CommentBytes(checksum) + data[INSERT_OFFSET..]
  }

  function Take(s: Bytes, n: nat): (r: Bytes)
    ensures |r| <= n
  {
    if |s| <= n then s else s[..n]
  }

  // Two writes put out what one write of both would.
  lemma TakeConcat(a: Bytes, b: Bytes, n: nat)
    ensures Take(a, n) + Take(b, n - |Take(a, n)|) == Take(a + b, n)
  {
  }

  lemma TakeStops(a: Bytes, b: Bytes, n: nat)
    requires |Take(a, n)| == n
    ensures Take(a + b, n) == Take(a, n)
  {
  }

  /** Writes the rest of the image in blocks, stopping at the first short write. */
  method WriteTail(data: Bytes, stream: Stream, ghost before: Bytes, ghost room: nat, ghost head: Bytes)
    requires stream.written == before + Take(head, room) && stream.room == room - |Take(head, room)|
    modifies stream
    ensures stream.written == before + Take(head + data, room)
  {
    var rest := data;
    ghost var done := head;
    while rest != []
      invariant stream.written == before + Take(done, room) && stream.room == room - |Take(done, room)|
      invariant done + rest == head + data
      decreases |rest|
    {
      var size := if |rest| < WRITE_SIZE then |rest| else WRITE_SIZE;
      Split(done, rest, size);
      TakeConcat(done, rest[..size], room);
      Associates(before, Take(done, room), Take(rest[..size], stream.room));
      var n := stream.Write(rest[..size]);
      done := done + rest[..size];
      if n != size {
        TakeStops(done, rest[size..], room);
        return;
      }
      rest := rest[size..];
    }
    assert done + rest == done;
  }

  lemma Split(a: Bytes, b: Bytes, n: nat)
    requires n <= |b|
    ensures a + b == a + b[..n] + b[n..]
  {
  }

  method WriteBody(data: Bytes, comment: Bytes, stream: Stream)
    requires |data| >= INSERT_OFFSET
    modifies stream
    ensures stream.written == old(stream.written) + Take(data[..INSERT_OFFSET] + comment + data[INSERT_OFFSET..], old(stream.room))
  {
    ghost var before, room := stream.written, stream.room;
    var insertOffset := OffsetAfterIHDRChunk();
    TakeConcat(data[..insertOffset], comment, room);
    Associates(before, Take(data[..insertOffset], room), Take(comment, room - |Take(data[..insertOffset], room)|));
    var n := stream.Write(data[..insertOffset]);
    n := stream.Write(comment);
    WriteTail(data[insertOffset..], stream, before, room, data[..insertOffset] + comment);
  }

  /** printPNG: announces the length and writes header chunk, comment and the rest. */
  method PrintPNG(data: Bytes, checksum: Bytes, stream: Stream, cache: Cache) returns (contentLength: nat)
    requires |data| >= INSERT_OFFSET && |checksum| >= CHECKSUM_LENGTH && cache.Valid()
    modifies stream, cache, cache.crcTable
    ensures contentLength == |Body(data, checksum)|
    ensures stream.written == old(stream.written) + Take(Body(data, checksum), old(stream.room))
  {
    var bytesToAdd := new ByteVector();
    ConvertChecksumToPNGComment(checksum, bytesToAdd, cache);
    assert bytesToAdd.bytes == CommentBytes(checksum);
    contentLength := |data| + |bytesToAdd.bytes|;
    WriteBody(data, bytesToAdd.bytes, stream);
  }

  // ----- the reader finds the comment -----

  lemma Fields<T>(l: seq<T>, k: seq<T>, d: seq<T>, c: seq<T>, r: seq<T>)
    requires |l| == |k| == |c| == 4
    ensures var b, n := l + k + d + c + r, |d|;
      && |b| == 12 + n + |r|
      && b[4..8] == k && b[8..8 + n] == d && b[12 + n..] == r
      && b[0] == l[0] && b[1] == l[1] && b[2] == l[2] && b[3] == l[3]
      && b[8 + n] == c[0] && b[8 + n + 1] == c[1] && b[8 + n + 2] == c[2] && b[8 + n + 3] == c[3]
  {
  }

  lemma ReadOne(kind: Bytes, data: Bytes, length: Bytes, crc: Bytes, rest: Bytes)
    requires |kind| == 4 && |length| == 4 && |crc| == 4
    requires Word(length[0], length[1], length[2], length[3]) as int == |data|
    ensures ReadChunk(length + kind + data + crc + rest) ==
      Some((Chunk(kind, data, Word(crc[0], crc[1], crc[2], crc[3])), rest))
  {
    Fields(length, kind, data, crc, rest);
    var b, n := length + kind + data + crc + rest, |data|;
    ReadFields(b, kind, data, Word(length[0], length[1], length[2], length[3]), Word(crc[0], crc[1], crc[2], crc[3]), rest);
  }

  lemma ReadFields(b: Bytes, kind: Bytes, data: Bytes, length: bv32, crc: bv32, rest: Bytes)
    requires |b| == 12 + |data| + |rest| && length as int == |data|
    requires WordAt(b, 0) == length && WordAt(b, 8 + |data|) == crc
    requires b[4..8] == kind && b[8..8 + |data|] == data && b[12 + |data|..] == rest
    ensures ReadChunk(b) == Some((Chunk(kind, data, crc), rest))
  {
  }

  lemma CommentReads(checksum: Bytes, rest: Bytes)
    requires |checksum| == CHECKSUM_LENGTH
    ensures ReadChunk(CommentBytes(checksum) + rest) == Some((TextChunk(checksum), rest))
  {
    var length: Bytes := [0x00, 0x00, 0x00, 0x29];
    var crc := CrcOf(TEXT + (KEYWORD + checksum));
    assert checksum[..CHECKSUM_LENGTH] == checksum && TEXT + KEYWORD + checksum == TEXT + (KEYWORD + checksum);
    BigEndianReads(crc);
    assert Word(0x00, 0x00, 0x00, 0x29) == 41;
    ReadOne(TEXT, KEYWORD + checksum, length, BigEndian(crc), rest);
    assert CommentBytes(checksum) + rest == length + TEXT + (KEYWORD + checksum) + BigEndian(crc) + rest;
  }

  // ----- what the text chunk says (section 4.2.7 of RFC 2083) -----

  function Ascii(s: string): (r: Bytes)
    requires forall i :: 0 <= i < |s| ==> s[i] as int < 128
  {
    seq(|s|, i requires 0 <= i < |s| => s[i] as bv8)
  }

  // The keyword up to the first zero byte, and the text behind it.
  function KeywordAndText(data: Bytes): (r: Option<(Bytes, Bytes)>) {
    if data == [] then None
    else if data[0] == 0 then Some(([], data[1..]))
    else
      var rest := KeywordAndText(data[1..]);
      if rest == None then None else Some(([data[0]] + rest.value.0, rest.value.1))
  }

  lemma {:induction false} KeywordFirst(keyword: Bytes, text: Bytes)
    requires 0 !in keyword
    ensures KeywordAndText(keyword + [0] + text) == Some((keyword, text))
    decreases |keyword|
  {
    var data := keyword + [0] + text;
    if keyword == [] {
      assert data[1..] == text;
    } else {
      assert data[1..] == keyword[1..] + [0] + text && keyword == [keyword[0]] + keyword[1..];
      KeywordFirst(keyword[1..], text);
    }
  }

  lemma SumAscii()
    ensures Ascii("ksum") == [0x6B, 0x73, 0x75, 0x6D]
  {
  }

  lemma ChecAscii()
    ensures Ascii("chec") == [0x63, 0x68, 0x65, 0x63]
  {
  }

  lemma AsciiConcat(a: string, b: string)
    requires (forall i :: 0 <= i < |a| ==> a[i] as int < 128) && forall i :: 0 <= i < |b| ==> b[i] as int < 128
    ensures forall i :: 0 <= i < |a + b| ==> (a + b)[i] as int < 128
    ensures Ascii(a + b) == Ascii(a) + Ascii(b)
  {
  }

  lemma ChecksumAscii()
    ensures Ascii("checksum") == [0x63, 0x68, 0x65, 0x63, 0x6B, 0x73, 0x75, 0x6D]
  {
    ChecAscii();
    SumAscii();
    AsciiConcat("chec", "ksum");
    assert "checksum" == "chec" + "ksum";
  }

  lemma TextAscii()
    ensures Ascii("tEXt") == TEXT
  {
  }

  lemma HeaderAscii()
    ensures Ascii("IHDR") == IHDR
  {
  }

  lemma TextSays(checksum: Bytes)
    requires |checksum| == CHECKSUM_LENGTH
    ensures TextChunk(checksum).kind == Ascii("tEXt")
    ensures KeywordAndText(TextChunk(checksum).data) == Some((Ascii("checksum"), checksum))
  {
    TextAscii();
    ChecksumAscii();
    KeywordFirst([0x63, 0x68, 0x65, 0x63, 0x6B, 0x73, 0x75, 0x6D], checksum);
    assert KEYWORD == [0x63, 0x68, 0x65, 0x63, 0x6B, 0x73, 0x75, 0x6D] + [0];
  }

  // A reader of the emitted body gets the original chunks with one valid text chunk after the header.
  lemma CommentInserted(data: Bytes, checksum: Bytes, chunks: seq<Chunk>)
    requires |data| >= INSERT_OFFSET && |checksum| == CHECKSUM_LENGTH
    requires ReadChunks(data[8..]) == Some(chunks) && chunks != []
    requires chunks[0].kind == IHDR && |chunks[0].data| == 13
    ensures ReadChunks(Body(data, checksum)[8..]) == Some([chunks[0], TextChunk(checksum)] + chunks[1..])
    ensures Body(data, checksum)[..8] == data[..8] && CrcValid(TextChunk(checksum))
  {
    var png, comment := data[8..], CommentBytes(checksum);
    var first := ReadChunk(png).value;
    Spliced(data, comment);
    assert first.1 == png[25..];
    HeaderKept(png, comment + first.1);
    CommentReads(checksum, first.1);
    ChunksSpliced(png, png[..25] + (comment + first.1), comment + first.1, first.1, first.0, TextChunk(checksum), chunks);
  }

  lemma Spliced<T>(data: seq<T>, comment: seq<T>)
    requires |data| >= INSERT_OFFSET
    ensures var out := data[..INSERT_OFFSET] + comment + data[INSERT_OFFSET..];
      out[..8] == data[..8] && out[8..] == data[8..][..25] + (comment + data[8..][25..])
  {
    assert data[8..][25..] == data[INSERT_OFFSET..];
  }

  lemma ChunksSpliced(png: Bytes, out: Bytes, mid: Bytes, rest: Bytes, header: Chunk, text: Chunk, chunks: seq<Chunk>)
    requires png != [] && out != [] && mid != []
    requires ReadChunk(png) == Some((header, rest)) && ReadChunks(png) == Some(chunks)
    requires ReadChunk(out) == Some((header, mid)) && ReadChunk(mid) == Some((text, rest))
    ensures ReadChunks(out) == Some([chunks[0], text] + chunks[1..])
  {
    assert chunks == [header] + ReadChunks(rest).value;
    assert ReadChunks(mid) == Some([text] + chunks[1..]);
    assert [header] + ([text] + chunks[1..]) == [chunks[0], text] + chunks[1..];
  }

  // The header chunk reads the same whatever follows it.
  lemma HeaderKept(png: Bytes, after: Bytes)
    requires ReadChunk(png).Some? && |ReadChunk(png).value.0.data| == 13
    ensures ReadChunk(png[..25] + after) == Some((ReadChunk(png).value.0, after))
  {
    var out := png[..25] + after;
    assert forall i :: 0 <= i < 25 ==> out[i] == png[i];
    assert out[4..8] == png[4..8] && out[8..21] == png[8..21] && out[25..] == after;
  }
}
