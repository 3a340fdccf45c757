/** CRC-32 as PNG and zlib use it (section 3.4 and the appendix of RFC 2083). */
module Crc {
  import opened Bytes

  const POLYNOMIAL: bv32 := 0xEDB8_8320

  function ShiftBit(c: bv32): bv32 {
    if c & 1 == 1 then (c >> 1) ^ POLYNOMIAL else c >> 1
  }

  function ShiftByte(c: bv32): bv32 {
    ShiftBit(ShiftBit(ShiftBit(ShiftBit(ShiftBit(ShiftBit(ShiftBit(ShiftBit(c))))))))
  }

  function Feed(c: bv32, bits: seq<bv32>): bv32
    decreases |bits|
  {
    if bits == [] then c else Feed(ShiftByte(c ^ bits[0]), bits[1..])
  }

  function Bits(data: seq<byte>): seq<bv32> {
    seq(|data|, i requires 0 <= i < |data| => data[i] as bv32)
  }

  function Crc32(data: seq<byte>): (n: nat)
    ensures n < 0x1_0000_0000
  {
    (Feed(0xFFFF_FFFF, Bits(data)) ^ 0xFFFF_FFFF) as int
  }

  lemma FeedOne(c: bv32, b: bv32, rest: seq<bv32>, next: bv32)
    requires ShiftByte(c ^ b) == next
    ensures Feed(c, [b] + rest) == Feed(next, rest)
  {
    assert ([b] + rest)[1..] == rest;
  }

  lemma FeedLetters(last: seq<bv32>)
    requires last == []
    ensures Feed(0x639F_4775, [0x44] + last) == 0x51BD_9F7D
    ensures Feed(0x992B_AC53, [0x4E] + ([0x44] + last)) == 0x51BD_9F7D
    ensures Feed(0x22FD_E946, [0x45] + ([0x4E] + ([0x44] + last))) == 0x51BD_9F7D
    ensures Feed(0xFFFF_FFFF, [0x49] + ([0x45] + ([0x4E] + ([0x44] + last)))) == 0x51BD_9F7D
  {
    FeedOne(0x639F_4775, 0x44, last, 0x51BD_9F7D);
    FeedOne(0x992B_AC53, 0x4E, [0x44] + last, 0x639F_4775);
    FeedOne(0x22FD_E946, 0x45, [0x4E] + ([0x44] + last), 0x992B_AC53);
    FeedOne(0xFFFF_FFFF, 0x49, [0x45] + ([0x4E] + ([0x44] + last)), 0x22FD_E946);
  }

  /** The one CRC every PNG file ends with: that of a bare IEND chunk. */
  lemma CrcOfEndChunk()
    ensures Crc32([0x49, 0x45, 0x4E, 0x44]) == 0xAE42_6082
  {
    var bits: seq<bv32> := [0x49] + ([0x45] + ([0x4E] + ([0x44] + [])));
    FeedLetters([]);
    assert Bits([0x49, 0x45, 0x4E, 0x44]) == bits;
  }
}

/** The hand-built PNG container and a reader for it. Compression is whatever
    inverse pair the caller supplies. */
module Png {
  import opened Bytes
  import opened Crc
  import Raster

  datatype Option<+T> = None | Some(value: T)

  datatype Image = Image(w: int, h: int, pixels: seq<byte>)

  datatype Chunk = Chunk(tag: seq<byte>, data: seq<byte>)

  const U32 := 0x1_0000_0000
  /** Section 2.1 of RFC 2083 keeps four-byte integers below 2^31. */
  const PNG_MAX := 0x7FFF_FFFF

  const SIGNATURE: seq<byte> := [0x89, 0x50, 0x4E, 0x47, 0x0D, 0x0A, 0x1A, 0x0A]
  const IHDR: seq<byte> := [0x49, 0x48, 0x44, 0x52]
  const IDAT: seq<byte> := [0x49, 0x44, 0x41, 0x54]
  const IEND: seq<byte> := [0x49, 0x45, 0x4E, 0x44]

  /** Depth 8, truecolour, deflate, filter method 0, no interlace. */
  const FORMAT: seq<byte> := [8, 2, 0, 0, 0]

  // --- writing ---

  /** Four bytes, most significant first. */
  function Pack(n: nat): (s: seq<byte>)
    requires n < U32
    ensures |s| == 4
  {
    [(n / 0x100_0000) as byte, (n / 0x1_0000 % 0x100) as byte, (n / 0x100 % 0x100) as byte, (n % 0x100) as byte]
  }

  /** Each row of the buffer behind a zero filter byte. */
  function Raw(w: nat, h: nat, pixels: seq<byte>): seq<byte>
    requires |pixels| == 3 * w * h
  {
    if h == 0 then []
    else
      assert 3 * w * h == 3 * w * (h - 1) + 3 * w;
      Raw(w, h - 1, pixels[..3 * w * (h - 1)]) + [0] + pixels[3 * w * (h - 1)..]
  }

  function WriteChunk(c: Chunk): seq<byte>
    requires |c.tag| == 4 && |c.data| < U32
  {
    Pack(|c.data|) + c.tag + c.data + Pack(Crc32(c.tag + c.data))
  }

  predicate Packable(img: Image, z: seq<byte>) {
    0 <= img.w < U32 && 0 <= img.h < U32 && |z| < U32
  }

  function File(img: Image, z: seq<byte>): seq<byte>
    requires Packable(img, z)
  {
    SIGNATURE + (WriteChunk(Chunk(IHDR, Pack(img.w) + Pack(img.h) + FORMAT))
    + (WriteChunk(Chunk(IDAT, z)) + WriteChunk(Chunk(IEND, []))))
  }

  /** `None` when a size does not fit its four-byte field (`struct.error`). */
  method Write(cv: Raster.Canvas, compress: seq<byte> -> seq<byte>) returns (r: Option<seq<byte>>)
    requires cv.Valid()
    ensures cv.w < 0 || cv.h < 0 ==> r.None?
    ensures cv.w >= 0 && cv.h >= 0 ==>
              && cv.buf.Length == 3 * cv.w * cv.h
              && var img := Image(cv.w, cv.h, cv.buf[..]);
                 var z := compress(Raw(cv.w, cv.h, cv.buf[..]));
                 (r.None? <==> !Packable(img, z)) && (r.Some? ==> r.value == File(img, z))
  {
    var w, h := cv.w, cv.h;
    if w < 0 || h < 0 {
      return None;
    }
    assert 3 * (w * h) == 3 * w * h;
    ghost var pixels := cv.buf[..];
    var raw := [];
    var y := 0;
    while y < h
      invariant 0 <= y <= h && 0 <= 3 * w * y <= 3 * w * h
      invariant raw == Raw(w, y, pixels[..3 * w * y])
    {
      RowFits(w, h, y);
      raw := raw + [0];
      raw := raw + cv.buf[y * w * 3..(y + 1) * w * 3];
      assert pixels[..3 * w * (y + 1)][..3 * w * y] == pixels[..3 * w * y];
      assert pixels[..3 * w * (y + 1)][3 * w * y..] == cv.buf[y * w * 3..(y + 1) * w * 3];
      y := y + 1;
    }
    assert pixels[..3 * w * h] == pixels;
    var z := compress(raw);
    if w >= U32 || h >= U32 || |z| >= U32 {
      return None;
    }
    r := Some(File(Image(w, h, cv.buf[..]), z));
  }

  lemma RowFits(w: nat, h: nat, y: nat)
    requires y < h
    ensures 3 * w * (y + 1) == 3 * w * y + 3 * w <= 3 * w * h
    ensures y * w * 3 == 3 * w * y && (y + 1) * w * 3 == 3 * w * (y + 1)
  {
    assert 3 * w * h == 3 * w * (y + 1) + 3 * w * (h - y - 1);
    assert 0 <= w * (h - y - 1);
  }

  // --- reading ---

  function Unpack(s: seq<byte>): nat
    requires |s| == 4
  {
    ((s[0] as int * 0x100 + s[1] as int) * 0x100 + s[2] as int) * 0x100 + s[3] as int
  }

  /** The first chunk and what follows it, its length and its CRC checked. */
  function ReadChunk(s: seq<byte>): Option<(Chunk, seq<byte>)> {
    if |s| < 12 then None
    else
      var n := Unpack(s[..4]);
      if PNG_MAX < n || |s| < 12 + n then None
      else
        var c := Chunk(s[4..8], s[8..8 + n]);
        if Unpack(s[8 + n..12 + n]) != Crc32(c.tag + c.data) then None
        else Some((c, s[12 + n..]))
  }

  /** Strips the filter byte of each of `h` rows, which must be zero. */
  function Unfilter(w: nat, h: nat, raw: seq<byte>): Option<seq<byte>>
  {
    if h == 0 then (if raw == [] then Some([]) else None)
    else if |raw| < 3 * w + 1 || raw[|raw| - 3 * w - 1] != 0 then None
    else
      var above := Unfilter(w, h - 1, raw[..|raw| - 3 * w - 1]);
      if above.None? then None else Some(above.value + raw[|raw| - 3 * w..])
  }

  predicate ValidSize(n: nat) {
    1 <= n <= PNG_MAX
  }

  /** A strict reader of three-chunk truecolour files. */
  function Read(s: seq<byte>, decompress: seq<byte> -> Option<seq<byte>>): Option<Image> {
    if |s| < 8 || s[..8] != SIGNATURE then None
    else
      var head := ReadChunk(s[8..]);
      if head.None? || head.value.0.tag != IHDR || |head.value.0.data| != 13 then None
      else
        var fields := head.value.0.data;
        var w, h := Unpack(fields[..4]), Unpack(fields[4..8]);
        if !ValidSize(w) || !ValidSize(h) || fields[8..] != FORMAT then None
        else
          var body := ReadChunk(head.value.1);
          if body.None? || body.value.0.tag != IDAT then None
          else
            var tail := ReadChunk(body.value.1);
            if tail != Some((Chunk(IEND, []), [])) then None
            else
              var raw := decompress(body.value.0.data);
              if raw.None? then None
              else
                var pixels := Unfilter(w, h, raw.value);
                if pixels.None? then None else Some(Image(w, h, pixels.value))
  }

  // --- the round trip ---

  lemma PackUnpack(n: nat)
    requires n < U32
    ensures Unpack(Pack(n)) == n
  {
    var a := n / 0x100;
    var b := a / 0x100;
    assert n / 0x1_0000 == b && n / 0x100_0000 == b / 0x100;
  }

  lemma ReadWriteChunk(c: Chunk, rest: seq<byte>)
    requires |c.tag| == 4 && |c.data| < U32
    ensures ReadChunk(WriteChunk(c) + rest) == if |c.data| <= PNG_MAX then Some((c, rest)) else None
  {
    var s := WriteChunk(c) + rest;
    var n := |c.data|;
    PackUnpack(n);
    PackUnpack(Crc32(c.tag + c.data));
    assert s[..4] == Pack(n);
    if n <= PNG_MAX {
      assert s[4..8] == c.tag;
      assert s[8..8 + n] == c.data;
      assert s[8 + n..12 + n] == Pack(Crc32(c.tag + c.data));
      assert s[12 + n..] == rest;
    }
  }

  lemma {:induction false} UnfilterRaw(w: nat, h: nat, pixels: seq<byte>)
    requires |pixels| == 3 * w * h
    ensures Unfilter(w, h, Raw(w, h, pixels)) == Some(pixels)
  {
    if h > 0 {
      var cut := 3 * w * (h - 1);
      assert 3 * w * h == cut + 3 * w;
      var raw := Raw(w, h, pixels);
      var above := Raw(w, h - 1, pixels[..cut]);
      assert raw == above + [0] + pixels[cut..];
      assert raw[..|raw| - 3 * w - 1] == above;
      assert raw[|raw| - 3 * w..] == pixels[cut..];
      assert raw[|raw| - 3 * w - 1] == 0;
      UnfilterRaw(w, h - 1, pixels[..cut]);
      assert pixels == pixels[..cut] + pixels[cut..];
    }
  }

  // --- the bytes themselves ---

  /** Every file is the eight signature bytes; the header chunk with width, height,
      depth 8, truecolour, deflate, adaptive filters and no interlace (sections 3.1
      and 4.1.1 of RFC 2083); one data chunk; and the twelve bytes of an empty end
      chunk. Lengths and check values read back as what they should be. */
  lemma FileLayout(img: Image, z: seq<byte>)
    returns (w: seq<byte>, h: seq<byte>, headCrc: seq<byte>, length: seq<byte>, bodyCrc: seq<byte>)
    requires Packable(img, z)
    ensures |w| == |h| == |headCrc| == |length| == |bodyCrc| == 4
    ensures Unpack(w) == img.w && Unpack(h) == img.h && Unpack(length) == |z|
    ensures Unpack(headCrc) == Crc32([73, 72, 68, 82] + (w + h + [8, 2, 0, 0, 0]))
    ensures Unpack(bodyCrc) == Crc32([73, 68, 65, 84] + z)
    ensures File(img, z) ==
            [137, 80, 78, 71, 13, 10, 26, 10]
            + (([0, 0, 0, 13] + [73, 72, 68, 82] + (w + h + [8, 2, 0, 0, 0]) + headCrc)
               + ((length + [73, 68, 65, 84] + z + bodyCrc)
                  + [0, 0, 0, 0, 73, 69, 78, 68, 174, 66, 96, 130]))
  {
    w, h, length := Pack(img.w), Pack(img.h), Pack(|z|);
    headCrc, bodyCrc := Pack(Crc32(IHDR + (w + h + FORMAT))), Pack(Crc32(IDAT + z));
    PackUnpack(img.w);
    PackUnpack(img.h);
    PackUnpack(|z|);
    PackUnpack(Crc32(IHDR + (w + h + FORMAT)));
    PackUnpack(Crc32(IDAT + z));
    PackOf(13, 0, 0, 0, 13);
    EndBytes();
  }

  /** The raw data row by row: a zero filter byte, then the buffer's row. */
  lemma RawOneMore(w: nat, h: nat, pixels: seq<byte>, row: seq<byte>)
    requires |pixels| == 3 * w * h && |row| == 3 * w
    ensures 3 * w * (h + 1) == |pixels + row| && Raw(w, 0, []) == []
    ensures Raw(w, h + 1, pixels + row) == Raw(w, h, pixels) + [0] + row
  {
    assert 3 * w * (h + 1) == 3 * w * h + 3 * w;
    assert (pixels + row)[..3 * w * h] == pixels && (pixels + row)[3 * w * h..] == row;
  }

  lemma PackOf(n: nat, a: byte, b: byte, c: byte, d: byte)
    requires n == ((a as int * 0x100 + b as int) * 0x100 + c as int) * 0x100 + d as int
    ensures n < U32 && Pack(n) == [a, b, c, d]
  {}

  lemma EndBytes()
    ensures WriteChunk(Chunk(IEND, [])) == [0, 0, 0, 0, 73, 69, 78, 68, 174, 66, 96, 130]
  {
    var empty: seq<byte> := [];
    var crc := Crc32(IEND + empty);
    assert crc == 0xAE42_6082 by {
      assert IEND + empty == [0x49, 0x45, 0x4E, 0x44];
      CrcOfEndChunk();
    }
    PackOf(0, 0, 0, 0, 0);
    PackOf(crc, 174, 66, 96, 130);
    assert WriteChunk(Chunk(IEND, empty)) == Pack(0) + IEND + empty + Pack(crc);
  }

  function Header(img: Image): Chunk
    requires 0 <= img.w < U32 && 0 <= img.h < U32
  {
    Chunk(IHDR, Pack(img.w) + Pack(img.h) + FORMAT)
  }

  lemma HeaderFields(img: Image)
    requires 0 <= img.w < U32 && 0 <= img.h < U32
    ensures var f := Header(img).data;
            |f| == 13 && Unpack(f[..4]) == img.w && Unpack(f[4..8]) == img.h && f[8..] == FORMAT
  {
    var f := Header(img).data;
    assert f[..4] == Pack(img.w) && f[4..8] == Pack(img.h);
    PackUnpack(img.w);
    PackUnpack(img.h);
  }

  lemma FileChunks(img: Image, z: seq<byte>)
    requires Packable(img, z)
    ensures var s := File(img, z);
            var end := WriteChunk(Chunk(IEND, []));
            var body := WriteChunk(Chunk(IDAT, z)) + end;
            && |s| >= 8 && s[..8] == SIGNATURE && ReadChunk(s[8..]) == Some((Header(img), body))
            && ReadChunk(body) == (if |z| <= PNG_MAX then Some((Chunk(IDAT, z), end)) else None)
            && ReadChunk(end) == Some((Chunk(IEND, []), []))
  {
    var s := File(img, z);
    var end := WriteChunk(Chunk(IEND, []));
    var body := WriteChunk(Chunk(IDAT, z)) + end;
    assert s[..8] == SIGNATURE;
    assert s[8..] == WriteChunk(Header(img)) + body;
    ReadWriteChunk(Header(img), body);
    ReadWriteChunk(Chunk(IDAT, z), end);
    assert end == end + [];
    ReadWriteChunk(Chunk(IEND, []), []);
  }

  /** Reading back a written file gives the canvas exactly when the sizes are
      legal in PNG; the writer itself does not look. */
  lemma RoundTrip(img: Image, z: seq<byte>, decompress: seq<byte> -> Option<seq<byte>>)
    requires Packable(img, z) && |img.pixels| == 3 * img.w * img.h
    requires decompress(z) == Some(Raw(img.w, img.h, img.pixels))
    ensures Read(File(img, z), decompress) ==
            if ValidSize(img.w) && ValidSize(img.h) && |z| <= PNG_MAX then Some(img) else None
  {
    FileChunks(img, z);
    HeaderFields(img);
    UnfilterRaw(img.w, img.h, img.pixels);
  }
}
