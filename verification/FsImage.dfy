/**
 The file-system image: what an inode's bytes are, which block belongs to whom, and how each
 step of appending keeps both.
 */
module FsImage {
  import opened FsWords

  const FSSIZE := 1000
  const LOGSTART := 2
  const NLOG := 30
  const NINODEBLOCKS := 13
  const INODESTART := 32
  const BMAPSTART := 45
  const NMETA := 46      // boot, super, log, inode and bitmap blocks

  type Sector = seq<Byte>
  type Img = seq<Sector>

  predicate ImgOk(img: Img) {
    |img| == FSSIZE && forall b :: 0 <= b < FSSIZE ==> |img[b]| == BSIZE
  }

  predicate Zero(s: Sector) {
    forall k :: 0 <= k < |s| ==> s[k] == 0
  }

  // Block number of block fbn of a file; 0 if it has none.
  function Ptr(img: Img, d: DInode, fbn: nat): (p: Word)
    requires ImgOk(img) && InodeOk(d) && fbn < MAXFILE
  {
    if fbn < NDIRECT then d.addrs[fbn]
    else if d.addrs[NDIRECT] == 0 || d.addrs[NDIRECT] >= FSSIZE then 0
    else DecodeWords(img[d.addrs[NDIRECT]])[fbn - NDIRECT]
  }

  function ByteAt(img: Img, d: DInode, off: nat): (b: Byte)
    requires ImgOk(img) && InodeOk(d) && off < MAXFILE * BSIZE
  {
    var p := Ptr(img, d, off / BSIZE);
    if p < FSSIZE then img[p][off % BSIZE] else 0
  }

  /** The bytes of a file, read through its direct and indirect blocks. */
  function Contents(img: Img, d: DInode): (s: seq<Byte>)
    requires ImgOk(img) && InodeOk(d) && d.size <= MAXFILE * BSIZE
    ensures |s| == d.size
  {
    seq(d.size, off requires 0 <= off < d.size => ByteAt(img, d, off))
  }

  datatype Owner = DataOf(inum: nat, fbn: nat) | IndexOf(inum: nat)

  ghost predicate InodesOk(inodes: map<nat, DInode>) {
    forall i <- inodes :: InodeOk(inodes[i]) && inodes[i].size <= MAXFILE * BSIZE
  }

  /** The pointers of inode i are recorded in owner, so no block is used twice. */
  ghost predicate OwnsOk(img: Img, i: nat, d: DInode, owner: map<nat, Owner>)
    requires ImgOk(img) && InodeOk(d)
  {
    && (d.addrs[NDIRECT] != 0 ==> d.addrs[NDIRECT] in owner && owner[d.addrs[NDIRECT]] == IndexOf(i))
    && (forall fbn: nat :: fbn < MAXFILE && Ptr(img, d, fbn) != 0 ==>
          Ptr(img, d, fbn) in owner && owner[Ptr(img, d, fbn)] == DataOf(i, fbn))
    && (forall fbn: nat :: fbn < MAXFILE && fbn * BSIZE < d.size ==> Ptr(img, d, fbn) != 0)
  }

  ghost predicate FsOk(img: Img, fb: nat, inodes: map<nat, DInode>, owner: map<nat, Owner>) {
    && ImgOk(img) && NMETA <= fb <= FSSIZE && InodesOk(inodes)
    && (forall b <- owner :: NMETA <= b < fb)
    && (forall i <- inodes :: OwnsOk(img, i, inodes[i], owner))
    && (forall b :: fb <= b < FSSIZE ==> Zero(img[b]))
  }

  // Inode d leads to the same blocks in both images.
  ghost predicate SamePtrs(img: Img, img': Img, d: DInode)
    requires ImgOk(img) && ImgOk(img') && InodeOk(d)
  {
    forall k: nat :: k < MAXFILE ==> Ptr(img', d, k) == Ptr(img, d, k)
  }

  // Block fbn of the file is now at b; all its other blocks are where they were.
  ghost predicate Gains(img: Img, d: DInode, img': Img, d': DInode, fbn: nat, b: nat)
    requires ImgOk(img) && ImgOk(img') && InodeOk(d) && InodeOk(d')
  {
    forall k: nat :: k < MAXFILE ==> Ptr(img', d', k) == if k == fbn then b else Ptr(img, d, k)
  }

  /** All files but i read the same, from the same blocks. */
  ghost predicate OthersSame(img: Img, img': Img, inodes: map<nat, DInode>, i: nat)
    requires ImgOk(img) && ImgOk(img') && InodesOk(inodes)
  {
    forall j <- inodes :: j != i ==>
      Contents(img', inodes[j]) == Contents(img, inodes[j]) && SamePtrs(img, img', inodes[j])
  }

  // ---------------------------------------------------------------- blocks a file needs

  /** Blocks, index block included, of a file of the given size. */
  function Blocks(size: nat): (n: nat) {
    (size + BSIZE - 1) / BSIZE + if size > NDIRECT * BSIZE then 1 else 0
  }

  lemma BlocksGrow(a: nat, b: nat)
    requires a <= b
    ensures Blocks(a) <= Blocks(b)
  {
  }

  /** The file has exactly the blocks its size needs. */
  ghost predicate Tight(img: Img, d: DInode)
    requires ImgOk(img) && InodeOk(d)
  {
    && (d.addrs[NDIRECT] != 0 <==> d.size > NDIRECT * BSIZE)
    && forall k: nat :: k < MAXFILE ==> (Ptr(img, d, k) != 0 <==> k * BSIZE < d.size)
  }

  // Blocks to allocate before block fbn can be written.
  ghost function NewBlocks(img: Img, d: DInode, fbn: nat): (n: nat)
    requires ImgOk(img) && InodeOk(d) && fbn < MAXFILE
  {
    (if fbn >= NDIRECT && d.addrs[NDIRECT] == 0 then 1 else 0) + (if Ptr(img, d, fbn) == 0 then 1 else 0)
  }

  /** Appending within one block takes the difference in needed blocks, and the file stays tight. */
  lemma TightGrows(img: Img, d: DInode, img': Img, d': DInode, n: nat, b: nat)
    requires ImgOk(img) && ImgOk(img') && InodeOk(d) && InodeOk(d') && Tight(img, d)
    requires d.size / BSIZE < MAXFILE && 0 < n <= (d.size / BSIZE + 1) * BSIZE - d.size && d'.size == d.size + n
    requires b != 0 && Gains(img, d, img', d', d.size / BSIZE, b)
    requires d'.addrs[NDIRECT] != 0 <==> d.addrs[NDIRECT] != 0 || d.size / BSIZE >= NDIRECT
    ensures Tight(img', d')
  {
    hide Ptr;
    forall k: nat | k < MAXFILE ensures Ptr(img', d', k) != 0 <==> k * BSIZE < d'.size {
      assert k < d.size / BSIZE ==> k * BSIZE < d.size;
      assert k > d.size / BSIZE ==> k * BSIZE >= d'.size;
    }
  }

  lemma TightNeeds(img: Img, d: DInode, n: nat)
    requires ImgOk(img) && InodeOk(d) && Tight(img, d)
    requires d.size / BSIZE < MAXFILE && 0 < n <= (d.size / BSIZE + 1) * BSIZE - d.size
    ensures NewBlocks(img, d, d.size / BSIZE) == Blocks(d.size + n) - Blocks(d.size)
  {
    hide Ptr;
    var q, r := d.size / BSIZE, d.size % BSIZE;
    assert d.size == q * BSIZE + r;
    assert Ptr(img, d, q) == 0 <==> r == 0;
    assert (d.size + n + BSIZE - 1) / BSIZE == q + 1;
    assert (d.size + BSIZE - 1) / BSIZE == if r == 0 then q else q + 1;
  }

  // ---------------------------------------------------------------- a new direct block

  function WithAddr(d: DInode, k: nat, b: Word): (r: DInode)
    requires InodeOk(d) && k < NDIRECT + 1
    ensures InodeOk(r)
  {
    d.(addrs := d.addrs[k := b])
  }

  lemma SameBytes(img: Img, d: DInode, img': Img, d': DInode)
    requires ImgOk(img) && ImgOk(img') && InodeOk(d) && InodeOk(d') && d.size == d'.size <= MAXFILE * BSIZE
    requires forall fbn: nat :: fbn < MAXFILE && fbn * BSIZE < d.size ==>
      && Ptr(img', d', fbn) == Ptr(img, d, fbn)
      && (Ptr(img, d, fbn) < FSSIZE ==> img'[Ptr(img, d, fbn)] == img[Ptr(img, d, fbn)])
    ensures Contents(img', d') == Contents(img, d)
  {
    forall off | 0 <= off < d.size ensures ByteAt(img', d', off) == ByteAt(img, d, off) {
      assert off / BSIZE * BSIZE < d.size;
    }
  }

  lemma NewDirect(img: Img, fb: nat, inodes: map<nat, DInode>, owner: map<nat, Owner>, i: nat, fbn: nat)
    requires FsOk(img, fb, inodes, owner) && i in inodes && fbn < NDIRECT && inodes[i].addrs[fbn] == 0 && fb < FSSIZE
    ensures var d := WithAddr(inodes[i], fbn, fb);
      && FsOk(img, fb + 1, inodes[i := d], owner[fb := DataOf(i, fbn)])
      && Contents(img, d) == Contents(img, inodes[i])
      && Gains(img, inodes[i], img, d, fbn, fb)
  {
    var d := WithAddr(inodes[i], fbn, fb);
    assert Ptr(img, inodes[i], fbn) == 0;
    forall k: nat | k < MAXFILE ensures Ptr(img, d, k) == if k == fbn then fb else Ptr(img, inodes[i], k) {
    }
    SameBytes(img, inodes[i], img, d);
    hide Ptr, Contents;
  }

  // ---------------------------------------------------------------- a new indirect block

  lemma ZeroWords(s: Sector, k: nat)
    requires Zero(s) && |s| == BSIZE && k < NINDIRECT
    ensures DecodeWords(s)[k] == 0
  {
    hide Zero;
    AllZero(s, 4 * k);
    AllZero(s, 4 * k + 1);
    AllZero(s, 4 * k + 2);
    AllZero(s, 4 * k + 3);
  }

  lemma AllZero(s: Sector, k: nat)
    requires Zero(s) && k < |s|
    ensures s[k] == 0
  {
  }

  lemma NewIndex(img: Img, fb: nat, inodes: map<nat, DInode>, owner: map<nat, Owner>, i: nat)
    requires FsOk(img, fb, inodes, owner) && i in inodes && inodes[i].addrs[NDIRECT] == 0 && fb < FSSIZE
    ensures var d := WithAddr(inodes[i], NDIRECT, fb);
      && FsOk(img, fb + 1, inodes[i := d], owner[fb := IndexOf(i)])
      && Contents(img, d) == Contents(img, inodes[i])
      && forall k: nat :: k < MAXFILE ==> Ptr(img, d, k) == Ptr(img, inodes[i], k)
  {
    hide DecodeWords, Zero;
    var d := WithAddr(inodes[i], NDIRECT, fb);
    forall k: nat | k < MAXFILE ensures Ptr(img, d, k) == Ptr(img, inodes[i], k) {
      if k >= NDIRECT {
        ZeroWords(img[fb], k - NDIRECT);
      }
    }
    SameBytes(img, inodes[i], img, d);
    hide Ptr, Contents;
  }

  // ---------------------------------------------------------------- a new entry in the indirect block

  // The image with entry k of index block x set to b.
  function WithIndex(img: Img, x: nat, k: nat, b: Word): (r: Img)
    requires ImgOk(img) && x < FSSIZE && k < NINDIRECT
    ensures ImgOk(r) && forall y :: 0 <= y < FSSIZE && y != x ==> r[y] == img[y]
  {
    img[x := EncodeWords(DecodeWords(img[x])[k := b])]
  }

  lemma IndexEntries(img: Img, x: nat, k: nat, b: Word, j: nat)
    requires ImgOk(img) && x < FSSIZE && k < NINDIRECT && j < NINDIRECT
    ensures DecodeWords(WithIndex(img, x, k, b)[x])[j] == if j == k then b else DecodeWords(img[x])[j]
  {
    DecodeEncode(DecodeWords(img[x])[k := b]);
  }

  // Files that do not use block x do not notice a change to it.
  lemma NotMine(img: Img, img': Img, fb: nat, owner: map<nat, Owner>, j: nat, d: DInode, x: nat)
    requires ImgOk(img) && ImgOk(img') && InodeOk(d) && d.size <= MAXFILE * BSIZE && fb <= FSSIZE
    requires forall b <- owner :: b < fb
    requires OwnsOk(img, j, d, owner) && x in owner
    requires owner[x] != IndexOf(j) && forall fbn: nat :: fbn < MAXFILE ==> owner[x] != DataOf(j, fbn)
    requires forall y :: 0 <= y < FSSIZE && y != x ==> img'[y] == img[y]
    ensures OwnsOk(img', j, d, owner) && Contents(img', d) == Contents(img, d) && SamePtrs(img, img', d)
  {
    forall k: nat | k < MAXFILE ensures Ptr(img', d, k) == Ptr(img, d, k) {
    }
    hide Ptr;
    SameBytes(img, d, img', d);
  }

  lemma NewIndirect(img: Img, fb: nat, inodes: map<nat, DInode>, owner: map<nat, Owner>, i: nat, fbn: nat)
    requires FsOk(img, fb, inodes, owner) && i in inodes && fb < FSSIZE
    requires NDIRECT <= fbn < MAXFILE && inodes[i].addrs[NDIRECT] != 0 && Ptr(img, inodes[i], fbn) == 0
    ensures inodes[i].addrs[NDIRECT] < FSSIZE
    ensures var img' := WithIndex(img, inodes[i].addrs[NDIRECT], fbn - NDIRECT, fb);
      && FsOk(img', fb + 1, inodes, owner[fb := DataOf(i, fbn)])
      && Contents(img', inodes[i]) == Contents(img, inodes[i])
      && Gains(img, inodes[i], img', inodes[i], fbn, fb)
      && OthersSame(img, img', inodes, i)
  {
    hide DecodeWords, WithIndex, Zero;
    var d := inodes[i];
    var x := d.addrs[NDIRECT];
    var img' := WithIndex(img, x, fbn - NDIRECT, fb);
    forall k: nat | k < MAXFILE ensures Ptr(img', d, k) == if k == fbn then fb else Ptr(img, d, k) {
      if k >= NDIRECT {
        IndexEntries(img, x, fbn - NDIRECT, fb, k - NDIRECT);
      }
    }
    hide Ptr;
    SameBytes(img, d, img', d);
    forall j | j in inodes && j != i
      ensures OwnsOk(img', j, inodes[j], owner) && Contents(img', inodes[j]) == Contents(img, inodes[j])
      ensures SamePtrs(img, img', inodes[j])
    {
      NotMine(img, img', fb, owner, j, inodes[j], x);
    }
    hide Contents;
  }

  // ---------------------------------------------------------------- writing data

  function WithBytes(s: Sector, at: nat, bytes: seq<Byte>): (r: Sector)
    requires |s| == BSIZE && at + |bytes| <= BSIZE
    ensures |r| == BSIZE
  {
    s[..at] + bytes + s[at + |bytes|..]
  }

  // Append bytes that fit in the block holding the end of the file.
  lemma Appended(img: Img, fb: nat, inodes: map<nat, DInode>, owner: map<nat, Owner>, i: nat, bytes: seq<Byte>)
    requires FsOk(img, fb, inodes, owner) && i in inodes
    requires var d := inodes[i];
      && d.size / BSIZE < MAXFILE && 0 < |bytes| <= (d.size / BSIZE + 1) * BSIZE - d.size
      && Ptr(img, d, d.size / BSIZE) != 0
    ensures var d := inodes[i];
      var x := Ptr(img, d, d.size / BSIZE);
      && x < FSSIZE
      && var img' := img[x := WithBytes(img[x], d.size % BSIZE, bytes)];
      && var d' := d.(size := d.size + |bytes|);
      && FsOk(img', fb, inodes[i := d'], owner)
      && Contents(img', d') == Contents(img, d) + bytes
      && OthersSame(img, img', inodes, i)
      && Gains(img, d, img', d', d.size / BSIZE, x)
  {
    var d := inodes[i];
    var n := d.size / BSIZE;
    var x := Ptr(img, d, n);
    assert owner[x] == DataOf(i, n);
    var img' := img[x := WithBytes(img[x], d.size % BSIZE, bytes)];
    var d' := d.(size := d.size + |bytes|);
    forall k: nat | k < MAXFILE ensures Ptr(img', d', k) == Ptr(img, d, k) {
    }
    hide Ptr;
    forall k: nat | k < MAXFILE && k != n && Ptr(img, d, k) != 0 ensures Ptr(img, d, k) != x {
    }
    AppendedBytes(img, img', d, d', x, n, bytes);
    forall j | j in inodes && j != i
      ensures OwnsOk(img', j, inodes[j], owner) && Contents(img', inodes[j]) == Contents(img, inodes[j])
      ensures SamePtrs(img, img', inodes[j])
    {
      NotMine(img, img', fb, owner, j, inodes[j], x);
    }
    hide Contents;
  }

  lemma AppendedBytes(img: Img, img': Img, d: DInode, d': DInode, x: nat, n: nat, bytes: seq<Byte>)
    requires ImgOk(img) && ImgOk(img') && InodeOk(d) && InodeOk(d') && n == d.size / BSIZE < MAXFILE && x < FSSIZE
    requires d'.size == d.size + |bytes| && 0 < |bytes| <= (n + 1) * BSIZE - d.size
    requires img' == img[x := WithBytes(img[x], d.size % BSIZE, bytes)]
    requires forall k: nat :: k < MAXFILE ==> Ptr(img', d', k) == Ptr(img, d, k)
    requires Ptr(img, d, n) == x
    requires forall k: nat :: k < n ==> Ptr(img, d, k) != x
    ensures d.size <= MAXFILE * BSIZE && d'.size <= MAXFILE * BSIZE
    ensures Contents(img', d') == Contents(img, d) + bytes
  {
    forall off | 0 <= off < d'.size ensures ByteAt(img', d', off) == (Contents(img, d) + bytes)[off] {
      var k := off / BSIZE;
      assert off == k * BSIZE + off % BSIZE;
      if k < n {
        assert Ptr(img, d, k) != x;
      } else {
        assert k == n;
      }
    }
  }

  // ---------------------------------------------------------------- ownership

  /** No block serves two purposes: data and index blocks of all files are distinct and lie in [NMETA, fb). */
  lemma NoSharing(img: Img, fb: nat, inodes: map<nat, DInode>, owner: map<nat, Owner>, i: nat, m: nat, j: nat, n: nat)
    requires FsOk(img, fb, inodes, owner) && i in inodes && j in inodes && m < MAXFILE && n < MAXFILE
    requires Ptr(img, inodes[i], m) != 0
    ensures NMETA <= Ptr(img, inodes[i], m) < fb
    ensures Ptr(img, inodes[i], m) == Ptr(img, inodes[j], n) ==> i == j && m == n
    ensures Ptr(img, inodes[i], m) != inodes[j].addrs[NDIRECT]
    ensures inodes[i].addrs[NDIRECT] != 0 && inodes[i].addrs[NDIRECT] == inodes[j].addrs[NDIRECT] ==> i == j
  {
    hide Ptr, Zero;
    assert OwnsOk(img, i, inodes[i], owner) && OwnsOk(img, j, inodes[j], owner);
  }

  // ---------------------------------------------------------------- where the bytes are

  /** Byte off of a file lies in the block the inode names for it, directly for the first twelve blocks and else by a
      little-endian word of the index block. */
  lemma FileByte(img: Img, d: DInode, off: nat)
    requires ImgOk(img) && InodeOk(d) && off < d.size <= MAXFILE * BSIZE
    ensures off < 12 * 1024 && d.addrs[off / 1024] < FSSIZE ==>
      Contents(img, d)[off] == img[d.addrs[off / 1024]][off % 1024]
    ensures off >= 12 * 1024 && 0 < d.addrs[12] < FSSIZE ==>
      var p := Le32(img[d.addrs[12]], 4 * (off / 1024 - 12));
      p < FSSIZE ==> Contents(img, d)[off] == img[p][off % 1024]
  {
    if off >= 12 * 1024 && 0 < d.addrs[12] < FSSIZE {
      LittleEndian(img[d.addrs[12]], off / 1024 - 12);
    }
    hide DecodeWords;
  }
}
