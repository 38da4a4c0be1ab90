/** Little-endian words in sectors, and inodes as sixteen such words. */
module FsWords {

  const BSIZE := 1024
  const NDIRECT := 12
  const NINDIRECT := 256
  const MAXFILE := 268
  const IPB := 16        // inodes per block

  type Byte = x: nat | x < 256
  type Word = x: nat | x < 0x1_0000_0000
  type Half = x: nat | x < 0x1_0000

  function Digit(w: Word, k: nat): (b: Byte)
    requires k < 4
  {
    if k == 0 then w % 256 else if k == 1 then w / 256 % 256
    else if k == 2 then w / 0x1_0000 % 256 else w / 0x100_0000
  }

  function FromDigits(a: Byte, b: Byte, c: Byte, d: Byte): (w: Word) {
    a + 256 * b + 0x1_0000 * c + 0x100_0000 * d
  }

  function EncodeWords(ws: seq<Word>): (bs: seq<Byte>)
    ensures |bs| == 4 * |ws|
  {
    seq(4 * |ws|, k requires 0 <= k < 4 * |ws| => Digit(ws[k / 4], k % 4))
  }

  function DecodeWords(bs: seq<Byte>): (ws: seq<Word>)
    ensures |ws| == |bs| / 4
  {
    seq(|bs| / 4, i requires 0 <= i < |bs| / 4 => FromDigits(bs[4 * i], bs[4 * i + 1], bs[4 * i + 2], bs[4 * i + 3]))
  }

  lemma DigitsOf(w: Word)
    ensures FromDigits(Digit(w, 0), Digit(w, 1), Digit(w, 2), Digit(w, 3)) == w
  {
    assert w / 0x1_0000 == w / 256 / 256 && w / 0x100_0000 == w / 256 / 256 / 256;
  }

  lemma EncodedDigit(ws: seq<Word>, i: nat, k: nat)
    requires i < |ws| && k < 4
    ensures EncodeWords(ws)[4 * i + k] == Digit(ws[i], k)
  {
    assert (4 * i + k) / 4 == i && (4 * i + k) % 4 == k;
  }

  /** Words written to a sector are read back. */
  lemma DecodeEncode(ws: seq<Word>)
    ensures DecodeWords(EncodeWords(ws)) == ws
  {
    hide EncodeWords, Digit, FromDigits;
    var bs := EncodeWords(ws);
    forall i | 0 <= i < |ws| ensures DecodeWords(bs)[i] == ws[i] {
      DigitsOf(ws[i]);
      EncodedDigit(ws, i, 0);
      EncodedDigit(ws, i, 1);
      EncodedDigit(ws, i, 2);
      EncodedDigit(ws, i, 3);
    }
  }

  // The numbers a little-endian machine reads from two and from four bytes.
  function Le16(bs: seq<Byte>, i: nat): (n: nat)
    requires i + 1 < |bs|
  {
    var a: nat, b: nat := bs[i], bs[i + 1];
    a + 256 * b
  }

  function Le32(bs: seq<Byte>, i: nat): (n: nat)
    requires i + 3 < |bs|
  {
    Le16(bs, i) + 0x1_0000 * Le16(bs, i + 2)
  }

  /** The words of a sector are what such a machine reads. */
  lemma LittleEndian(bs: seq<Byte>, i: nat)
    requires 4 * i + 3 < |bs|
    ensures DecodeWords(bs)[i] == Le32(bs, 4 * i)
  {
  }

  datatype DInode = DInode(itype: Half, major: Half, minor: Half, nlink: Half, size: Word, addrs: seq<Word>)

  predicate InodeOk(d: DInode) {
    |d.addrs| == NDIRECT + 1
  }

  function InodeWords(d: DInode): (ws: seq<Word>)
    requires InodeOk(d)
    ensures |ws| == 16
  {
    var w0: Word := d.itype + 0x1_0000 * d.major;
    var w1: Word := d.minor + 0x1_0000 * d.nlink;
    [w0, w1, d.size] + d.addrs
  }

  function WordsInode(ws: seq<Word>): (d: DInode)
    requires |ws| == 16
    ensures InodeOk(d)
  {
    DInode(ws[0] % 0x1_0000, ws[0] / 0x1_0000, ws[1] % 0x1_0000, ws[1] / 0x1_0000, ws[2], ws[3..])
  }

  lemma InodeRoundTrip(d: DInode)
    requires InodeOk(d)
    ensures WordsInode(InodeWords(d)) == d
  {
  }

  // Inode in slot k of an inode block.
  function InodeAt(sec: seq<Byte>, k: nat): (d: DInode)
    requires |sec| == BSIZE && k < IPB
    ensures InodeOk(d)
  {
    WordsInode(DecodeWords(sec)[16 * k..16 * k + 16])
  }

  function WithInode(sec: seq<Byte>, k: nat, d: DInode): (r: seq<Byte>)
    requires |sec| == BSIZE && k < IPB && InodeOk(d)
    ensures |r| == BSIZE
  {
    var ws := DecodeWords(sec);
    EncodeWords(ws[..16 * k] + InodeWords(d) + ws[16 * k + 16..])
  }

  lemma ReplacedSlot(ws: seq<Word>, k: nat, new16: seq<Word>, j: nat)
    requires |ws| == 256 && |new16| == 16 && k < IPB && j < IPB
    ensures (ws[..16 * k] + new16 + ws[16 * k + 16..])[16 * j..16 * j + 16] ==
      if j == k then new16 else ws[16 * j..16 * j + 16]
  {
    var r := ws[..16 * k] + new16 + ws[16 * k + 16..];
    forall i | 0 <= i < 16 ensures r[16 * j + i] == if j == k then new16[i] else ws[16 * j + i] {
      if j < k {
        assert 16 * j + i < 16 * k;
      } else if j > k {
        assert 16 * j + i >= 16 * k + 16;
      }
    }
  }

  /** Writing one inode of a block leaves the other fifteen alone. */
  lemma InodeWritten(sec: seq<Byte>, k: nat, d: DInode, j: nat)
    requires |sec| == BSIZE && k < IPB && j < IPB && InodeOk(d)
    ensures InodeAt(WithInode(sec, k, d), j) == if j == k then d else InodeAt(sec, j)
  {
    hide DecodeWords, EncodeWords, InodeWords, WordsInode;
    var ws := DecodeWords(sec);
    var ws' := ws[..16 * k] + InodeWords(d) + ws[16 * k + 16..];
    DecodeEncode(ws');
    ReplacedSlot(ws, k, InodeWords(d), j);
    InodeRoundTrip(d);
  }

  lemma Halfwords(a: Half, b: Half, low: nat, high: nat)
    requires a + 0x1_0000 * b == low + 0x1_0000 * high && low < 0x1_0000
    ensures a == low && b == high
  {
  }

  // Word w of slot k.
  lemma SlotWord(sec: seq<Byte>, k: nat, d: DInode, w: nat)
    requires |sec| == BSIZE && k < IPB && InodeOk(d) && w < 16
    ensures InodeWords(d)[w] == Le32(WithInode(sec, k, d), 64 * k + 4 * w)
  {
    hide InodeWords, EncodeWords;
    var ws := DecodeWords(sec);
    DecodeEncode(ws[..16 * k] + InodeWords(d) + ws[16 * k + 16..]);
    LittleEndian(WithInode(sec, k, d), 16 * k + w);
  }

  /** Where the fields of an inode lie in its sector: type, major, minor and link count in two bytes each, the size and
      the block numbers in four each, from byte 64 * k on. */
  lemma InodeLayout(sec: seq<Byte>, k: nat, d: DInode, j: nat)
    requires |sec| == BSIZE && k < IPB && InodeOk(d) && j < NDIRECT + 1
    ensures var s, i := WithInode(sec, k, d), 64 * k;
      && d.itype == Le16(s, i) && d.major == Le16(s, i + 2) && d.minor == Le16(s, i + 4) && d.nlink == Le16(s, i + 6)
      && d.size == Le32(s, i + 8) && d.addrs[j] == Le32(s, i + 12 + 4 * j)
  {
    hide WithInode;
    var s, i := WithInode(sec, k, d), 64 * k;
    SlotWord(sec, k, d, 0);
    SlotWord(sec, k, d, 1);
    SlotWord(sec, k, d, 2);
    SlotWord(sec, k, d, 3 + j);
    Halfwords(d.itype, d.major, Le16(s, i), Le16(s, i + 2));
    Halfwords(d.minor, d.nlink, Le16(s, i + 4), Le16(s, i + 6));
  }
}
