/** The bytes of a page frame: a word lies in memory with its low byte first. */
module Bytes {
  import opened Machine

  /** The 4096 bytes of one page frame. */
  type Page = s: seq<Byte> | |s| == 4096 witness seq(4096, _ => 0)

  /** memcpy into a page. */
  function WriteBytes(page: Page, at: int, bytes: seq<Byte>): (r: Page)
    requires 0 <= at && at + |bytes| <= 4096
    ensures forall i :: 0 <= i < 4096 ==> r[i] == if at <= i < at + |bytes| then bytes[i - at] else page[i]
  {
    page[..at] + bytes + page[at + |bytes|..]
  }

  /** A word is stored with its low byte first. */
  function WordBytes(w: Word): (b: seq<Byte>)
    ensures |b| == 4
  {
    [w % 256, w / 256 % 256, w / 0x1_0000 % 256, w / 0x100_0000]
  }

  function ReadWord(page: Page, at: int): Word
    requires 0 <= at <= 4092
  {
    var b0: int, b1: int, b2: int, b3: int := page[at], page[at + 1], page[at + 2], page[at + 3];
    b0 + 256 * b1 + 0x1_0000 * b2 + 0x100_0000 * b3
  }

  lemma WordParts(w: Word)
    ensures w % 256 + 256 * (w / 256 % 256) + 0x1_0000 * (w / 0x1_0000 % 256) + 0x100_0000 * (w / 0x100_0000) == w
  {}

  lemma WordRoundTrip(page: Page, at: int, w: Word)
    requires 0 <= at <= 4092 && page[at..at + 4] == WordBytes(w)
    ensures ReadWord(page, at) == w
  {
    var c := page[at..at + 4];
    assert page[at] == c[0] && page[at + 1] == c[1] && page[at + 2] == c[2] && page[at + 3] == c[3];
    WordParts(w);
  }

  lemma PartsOfWord(b0: int, b1: int, b2: int, b3: int)
    requires 0 <= b0 < 256 && 0 <= b1 < 256 && 0 <= b2 < 256 && 0 <= b3 < 256
    ensures WordBytes(b0 + 256 * b1 + 0x1_0000 * b2 + 0x100_0000 * b3) == [b0, b1, b2, b3]
  {
    var w := b0 + 256 * b1 + 0x1_0000 * b2 + 0x100_0000 * b3;
    assert w / 256 == b1 + 256 * b2 + 0x1_0000 * b3;
    assert w / 0x1_0000 == b2 + 256 * b3;
  }

  /** The words of a page of bytes, and the bytes of a page of words. */
  function Pack(page: Page): (words: Frame)
    ensures forall i :: 0 <= i < 1024 ==> words[i] == ReadWord(page, 4 * i)
  {
    seq(1024, i requires 0 <= i < 1024 => ReadWord(page, 4 * i))
  }

  function Unpack(words: Frame): (page: Page)
    ensures forall i :: 0 <= i < 4096 ==> page[i] == WordBytes(words[i / 4])[i % 4]
  {
    seq(4096, i requires 0 <= i < 4096 => WordBytes(words[i / 4])[i % 4])
  }

  /** Words and bytes are two views of the same memory. */
  lemma UnpackPack(page: Page)
    ensures Unpack(Pack(page)) == page
  {
    forall i | 0 <= i < 4096 ensures Unpack(Pack(page))[i] == page[i] {
      var at := 4 * (i / 4);
      PartsOfWord(page[at], page[at + 1], page[at + 2], page[at + 3]);
      assert i == at + i % 4;
    }
  }

  lemma PackUnpack(words: Frame)
    ensures Pack(Unpack(words)) == words
  {
    var page := Unpack(words);
    forall i | 0 <= i < 1024 ensures Pack(page)[i] == words[i] {
      WordAt(words, i);
    }
  }

  /** A word is read where it lies. */
  lemma WordAt(words: Frame, i: int)
    requires 0 <= i < 1024
    ensures ReadWord(Unpack(words), 4 * i) == words[i]
  {
    var page, b := Unpack(words), WordBytes(words[i]);
    assert page[4 * i + 0] == b[0] && page[4 * i + 1] == b[1] && page[4 * i + 2] == b[2] && page[4 * i + 3] == b[3];
    assert page[4 * i..4 * i + 4] == b;
    WordRoundTrip(page, 4 * i, words[i]);
  }

  /** memcpy into a page frame. */
  function WriteFrame(words: Frame, at: int, bytes: seq<Byte>): Frame
    requires 0 <= at && at + |bytes| <= 4096
  {
    Pack(WriteBytes(Unpack(words), at, bytes))
  }

  /** What memcpy leaves in the frame, byte by byte. */
  lemma FrameWritten(words: Frame, at: int, bytes: seq<Byte>)
    requires 0 <= at && at + |bytes| <= 4096
    ensures Unpack(WriteFrame(words, at, bytes)) == WriteBytes(Unpack(words), at, bytes)
  {
    UnpackPack(WriteBytes(Unpack(words), at, bytes));
  }
}
