/** Building a file-system image: inodes, appending to files, and the bitmap of used blocks. */
module MkFs {
  import opened Arith
  import opened FsWords
  import opened FsImage

  // How appending can end besides success: the file-size assertion, or a read past the image.
  datatype Outcome = Done | TooBig | Died

  /** The inode blocks hold exactly the inodes of the table. */
  ghost predicate TableOk(img: Img, inodes: map<nat, DInode>)
    requires ImgOk(img)
  {
    forall i <- inodes :: i < NINODEBLOCKS * IPB && InodeAt(img[INODESTART + i / IPB], i % IPB) == inodes[i]
  }

  lemma TableFrame(img: Img, img': Img, inodes: map<nat, DInode>)
    requires ImgOk(img) && ImgOk(img') && TableOk(img, inodes)
    requires forall b :: INODESTART <= b < BMAPSTART ==> img'[b] == img[b]
    ensures TableOk(img', inodes)
  {
  }

  // Inode i written in its block.
  function InodeSet(img: Img, i: nat, d: DInode): (r: Img)
    requires ImgOk(img) && InodeOk(d) && INODESTART + i / IPB < FSSIZE
    ensures ImgOk(r) && forall b :: 0 <= b < FSSIZE && b != INODESTART + i / IPB ==> r[b] == img[b]
  {
    var bn := INODESTART + i / IPB;
    img[bn := WithInode(img[bn], i % IPB, d)]
  }

  lemma InodeSetOne(img: Img, i: nat, d: DInode, j: nat)
    requires ImgOk(img) && InodeOk(d) && i < NINODEBLOCKS * IPB && j < NINODEBLOCKS * IPB
    ensures InodeAt(InodeSet(img, i, d)[INODESTART + j / IPB], j % IPB) ==
      if i == j then d else InodeAt(img[INODESTART + j / IPB], j % IPB)
  {
    hide InodeAt, WithInode;
    if i / IPB == j / IPB {
      InodeWritten(img[INODESTART + i / IPB], i % IPB, d, j % IPB);
    }
  }

  lemma TableWrite(img: Img, inodes: map<nat, DInode>, i: nat, d: DInode)
    requires ImgOk(img) && TableOk(img, inodes) && InodeOk(d) && i < NINODEBLOCKS * IPB
    ensures TableOk(InodeSet(img, i, d), inodes[i := d])
  {
    hide InodeSet, InodeAt;
    forall j | j in inodes[i := d] && j < NINODEBLOCKS * IPB
      ensures InodeAt(InodeSet(img, i, d)[INODESTART + j / IPB], j % IPB) == inodes[i := d][j]
    {
      InodeSetOne(img, i, d, j);
    }
  }

  // Metadata blocks are no file's blocks.
  lemma MetaWrite(img: Img, img': Img, fb: nat, inodes: map<nat, DInode>, owner: map<nat, Owner>)
    requires FsOk(img, fb, inodes, owner) && ImgOk(img')
    requires forall b :: NMETA <= b < FSSIZE ==> img'[b] == img[b]
    ensures FsOk(img', fb, inodes, owner)
    ensures forall j <- inodes ::
      Contents(img', inodes[j]) == Contents(img, inodes[j]) && SamePtrs(img, img', inodes[j])
  {
    forall j | j in inodes
      ensures OwnsOk(img', j, inodes[j], owner) && Contents(img', inodes[j]) == Contents(img, inodes[j])
      ensures SamePtrs(img, img', inodes[j])
    {
      MetaOne(img, img', fb, j, inodes[j], owner);
    }
  }

  lemma MetaOne(img: Img, img': Img, fb: nat, j: nat, d: DInode, owner: map<nat, Owner>)
    requires ImgOk(img) && ImgOk(img') && InodeOk(d) && d.size <= MAXFILE * BSIZE && fb <= FSSIZE
    requires OwnsOk(img, j, d, owner) && forall b <- owner :: NMETA <= b < fb
    requires forall b :: NMETA <= b < FSSIZE ==> img'[b] == img[b]
    ensures OwnsOk(img', j, d, owner) && Contents(img', d) == Contents(img, d) && SamePtrs(img, img', d)
  {
    hide DecodeWords;
    forall k: nat | k < MAXFILE ensures Ptr(img', d, k) == Ptr(img, d, k) {
    }
    hide Ptr;
    SameBytes(img, d, img', d);
  }

  ghost predicate AllTight(img: Img, inodes: map<nat, DInode>)
    requires ImgOk(img) && InodesOk(inodes)
  {
    forall j <- inodes :: Tight(img, inodes[j])
  }

  lemma TightOne(img: Img, inodes: map<nat, DInode>, j: nat)
    requires ImgOk(img) && InodesOk(inodes) && AllTight(img, inodes) && j in inodes
    ensures Tight(img, inodes[j])
  {
  }

  lemma OthersStart(img: Img, inodes: map<nat, DInode>, i: nat)
    requires ImgOk(img) && InodesOk(inodes)
    ensures OthersSame(img, img, inodes, i)
  {
  }

  lemma TightKept(img: Img, img': Img, inodes: map<nat, DInode>)
    requires ImgOk(img) && ImgOk(img') && InodesOk(inodes) && AllTight(img, inodes)
    requires forall j <- inodes :: SamePtrs(img, img', inodes[j])
    ensures AllTight(img', inodes)
  {
    hide Ptr;
    forall j | j in inodes ensures Tight(img', inodes[j]) {
      assert Tight(img, inodes[j]) && SamePtrs(img, img', inodes[j]);
    }
  }

  lemma TightUpdated(img: Img, img': Img, files: map<nat, DInode>, inum: nat, d: DInode)
    requires ImgOk(img) && ImgOk(img') && InodesOk(files) && AllTight(img, files) && OthersSame(img, img', files, inum)
    requires InodeOk(d) && d.size <= MAXFILE * BSIZE && Tight(img', d)
    ensures AllTight(img', files[inum := d])
  {
    hide Ptr, Contents;
    forall j | j in files && j != inum ensures Tight(img', files[j]) {
      assert Tight(img, files[j]) && SamePtrs(img, img', files[j]);
    }
  }

  function EmptyInode(itype: Half): (d: DInode)
    ensures InodeOk(d)
  {
    DInode(itype, 0, 0, 1, 0, seq(NDIRECT + 1, _ => 0))
  }

  /** What a new inode is: of the type asked for, with one link, no device numbers, no bytes and no blocks. */
  predicate IsNew(d: DInode, itype: Half) {
    && InodeOk(d) && d.itype == itype && d.nlink == 1 && d.major == 0 && d.minor == 0 && d.size == 0
    && forall k :: 0 <= k < |d.addrs| ==> d.addrs[k] == 0
  }

  lemma EmptyOwns(img: Img, i: nat, itype: Half, owner: map<nat, Owner>)
    requires ImgOk(img)
    ensures OwnsOk(img, i, EmptyInode(itype), owner) && Tight(img, EmptyInode(itype))
  {
  }

  lemma IndexOwned(img: Img, fb: nat, inodes: map<nat, DInode>, owner: map<nat, Owner>, i: nat)
    requires FsOk(img, fb, inodes, owner) && i in inodes && inodes[i].addrs[NDIRECT] != 0
    ensures NMETA <= inodes[i].addrs[NDIRECT] < FSSIZE
  {
  }

  lemma PtrOwned(img: Img, fb: nat, inodes: map<nat, DInode>, owner: map<nat, Owner>, i: nat, fbn: nat)
    requires FsOk(img, fb, inodes, owner) && i in inodes && fbn < MAXFILE && Ptr(img, inodes[i], fbn) != 0
    ensures NMETA <= Ptr(img, inodes[i], fbn) < FSSIZE
  {
    hide Ptr;
  }

  lemma OthersSameTable(img: Img, img': Img, tbl: map<nat, DInode>, tbl': map<nat, DInode>, i: nat)
    requires ImgOk(img) && ImgOk(img') && InodesOk(tbl) && InodesOk(tbl')
    requires OthersSame(img, img', tbl', i) && forall j :: j in tbl && j != i ==> j in tbl' && tbl'[j] == tbl[j]
    ensures OthersSame(img, img', tbl, i)
  {
    hide Contents;
  }

  lemma OthersChain(a: Img, b: Img, c: Img,
                    files: map<nat, DInode>, tbl: map<nat, DInode>, tbl': map<nat, DInode>, i: nat)
    requires ImgOk(a) && ImgOk(b) && ImgOk(c) && InodesOk(files) && InodesOk(tbl) && InodesOk(tbl')
    requires forall j :: j in files && j != i ==> j in tbl && j in tbl' && tbl[j] == tbl'[j] == files[j]
    requires OthersSame(a, b, tbl, i) && OthersSame(b, c, tbl', i)
    ensures OthersSame(a, c, files, i)
  {
    hide Contents;
  }

  /** Appending data to file inum turned one image and inode table into the other. */
  ghost predicate IsAppend(img0: Img, files: map<nat, DInode>, img: Img, inodes: map<nat, DInode>,
                           inum: nat, data: seq<Byte>)
    requires ImgOk(img0) && ImgOk(img) && InodesOk(files) && InodesOk(inodes) && inum in files && inum in inodes
  {
    var d, d' := files[inum], inodes[inum];
    && inodes == files[inum := d']
    && d' == d.(size := d'.size, addrs := d'.addrs)
    && Contents(img, d') == Contents(img0, d) + data
    && OthersSame(img0, img, files, inum)
  }

  // The end of what appending up to n bytes reaches before the size assertion.
  function Capped(n: nat): (m: nat) {
    if n <= MAXFILE * BSIZE then n else MAXFILE * BSIZE
  }

  lemma TableBound(img: Img, inodes: map<nat, DInode>, i: nat)
    requires ImgOk(img) && TableOk(img, inodes) && i in inodes
    ensures i < NINODEBLOCKS * IPB
  {
  }

  // ---------------------------------------------------------------- bitmap bits

  // 1 << k
  function Bit(k: nat): (b: nat)
    requires k < 8
    ensures b > 0
  {
    if k == 0 then 1 else if k == 1 then 2 else if k == 2 then 4 else if k == 3 then 8
    else if k == 4 then 16 else if k == 5 then 32 else if k == 6 then 64 else 128
  }

  /** Bit k counts 2 to the k. */
  lemma BitIs(k: nat)
    requires k < 8
    ensures Bit(k) == Pow2(k)
  {
    assert Pow2(3) == 8 && Pow2(7) == 16 * Pow2(3) by { Pow2Add(4, 3); assert Pow2(4) == 16; }
    assert Pow2(4) == 16 && Pow2(5) == 32 && Pow2(6) == 64;
  }

  predicate HasBit(x: Byte, k: nat)
    requires k < 8
  {
    x / Bit(k) % 2 == 1
  }

  // x | 1 << k
  function OrBit(x: Byte, k: nat): (y: Byte)
    requires k < 8
  {
    if HasBit(x, k) then x else x + Bit(k)
  }

  predicate BitSet(s: Sector, i: nat)
    requires |s| == BSIZE && i < BSIZE * 8
  {
    HasBit(s[i / 8], i % 8)
  }

  /** Block i is bit i % 8, counted from the lowest, of byte i / 8. */
  lemma BitSetIs(s: Sector, i: nat)
    requires |s| == BSIZE && i < BSIZE * 8
    ensures BitSet(s, i) <==> s[i / 8] / Pow2(i % 8) % 2 == 1
  {
    BitIs(i % 8);
  }

  // The byte with the lowest r bits set.
  function Ones(r: nat): (x: Byte)
    requires r <= 8
  {
    if r == 8 then 255 else Bit(r) - 1
  }

  lemma OnesBits(r: nat, k: nat)
    requires r <= 8 && k < 8
    ensures HasBit(Ones(r), k) <==> k < r
    ensures k == r ==> OrBit(Ones(r), k) == Ones(r + 1)
  {
  }

  // Bits set in byte j when the first n bits of the bitmap are.
  function Run(n: nat, j: nat): (r: nat)
    ensures r <= 8
  {
    if n <= 8 * j then 0 else if n >= 8 * j + 8 then 8 else n - 8 * j
  }

  ghost predicate FirstBits(s: Sector, n: nat) {
    && |s| == BSIZE
    && forall j :: 0 <= j < BSIZE ==> s[j] == Ones(Run(n, j))
  }

  lemma FirstNone(s: Sector)
    requires |s| == BSIZE && Zero(s)
    ensures FirstBits(s, 0)
  {
  }

  lemma MarkNext(s: Sector, i: nat)
    requires FirstBits(s, i) && i < BSIZE * 8
    ensures i / 8 < |s| && FirstBits(s[i / 8 := OrBit(s[i / 8], i % 8)], i + 1)
  {
    OnesBits(i % 8, i % 8);
    assert Run(i, i / 8) == i % 8 && Run(i + 1, i / 8) == i % 8 + 1;
    assert forall j :: 0 <= j < BSIZE && j != i / 8 ==> Run(i + 1, j) == Run(i, j);
  }

  lemma MarkedBits(s: Sector, n: nat, i: nat)
    requires FirstBits(s, n) && i < BSIZE * 8 && |s| == BSIZE
    ensures BitSet(s, i) <==> i < n
  {
    OnesBits(Run(n, i / 8), i % 8);
  }

  // The zero halves of a word of four bytes.
  lemma ZeroHalves(a: Byte, b: Byte, c: Byte, d: Byte)
    ensures FromDigits(a, b, c, d) % 0x1_0000 == 0 <==> a == 0 && b == 0
    ensures FromDigits(a, b, c, d) / 0x1_0000 == 0 <==> c == 0 && d == 0
  {
    var low, high := a + 256 * b, c + 256 * d;
    assert FromDigits(a, b, c, d) == low + 0x1_0000 * high && low < 0x1_0000;
  }

  // The bytes behind two fields of the inode in slot k.
  lemma SlotFields(s: Sector, k: nat)
    requires |s| == BSIZE && k < IPB
    ensures InodeAt(s, k).minor == 0 <==> s[64 * k + 4] == 0 && s[64 * k + 5] == 0
    ensures InodeAt(s, k).nlink == 0 <==> s[64 * k + 6] == 0 && s[64 * k + 7] == 0
  {
    hide FromDigits;
    var i := 16 * k + 1;
    assert DecodeWords(s)[16 * k..16 * k + 16][1] == DecodeWords(s)[i];
    assert DecodeWords(s)[i] == FromDigits(s[4 * i], s[4 * i + 1], s[4 * i + 2], s[4 * i + 3]);
    ZeroHalves(s[4 * i], s[4 * i + 1], s[4 * i + 2], s[4 * i + 3]);
  }

  /** An inode stays clear of the bitmap and of all file blocks exactly if its number is below 208. */
  lemma PastTheTable(img: Img, i: nat, d: DInode)
    requires ImgOk(img) && InodeOk(d) && INODESTART + i / IPB < FSSIZE
    ensures InodeAt(InodeSet(img, i, d)[INODESTART + i / IPB], i % IPB) == d
    ensures i < NINODEBLOCKS * IPB <==> INODESTART + i / IPB < BMAPSTART
    ensures NINODEBLOCKS * IPB <= i < (NINODEBLOCKS + 1) * IPB <==> INODESTART + i / IPB == BMAPSTART
  {
    InodeWritten(img[INODESTART + i / IPB], i % IPB, d, i % IPB);
  }

  /** In the bitmap balloc writes no slot reads as an inode with a link and no minor number, as every inode that
      mkfs writes has: a file whose inode landed there is lost, appended to or not. */
  lemma BitmapLosesInodes(s: Sector, used: nat, k: nat)
    requires FirstBits(s, used) && k < IPB
    ensures InodeAt(s, k).minor == 0 ==> InodeAt(s, k).nlink == 0
  {
    hide InodeAt;
    SlotFields(s, k);
    assert s[64 * k + 4] == 0 ==> used <= 8 * (64 * k + 4) by {
      assert Run(used, 64 * k + 4) > 0 ==> Ones(Run(used, 64 * k + 4)) > 0;
    }
    if used <= 8 * (64 * k + 4) {
      assert s[64 * k + 6] == Ones(0) && s[64 * k + 7] == Ones(0);
    }
  }

  // Block b is a data block or the index block of the file.
  ghost predicate Uses(img: Img, d: DInode, b: nat)
    requires ImgOk(img) && InodeOk(d)
  {
    d.addrs[NDIRECT] == b || exists k: nat :: k < MAXFILE && Ptr(img, d, k) == b
  }

  lemma NotUsed(img: Img, img': Img, d: DInode, b: nat)
    requires ImgOk(img) && ImgOk(img') && InodeOk(d) && d.size <= MAXFILE * BSIZE && !Uses(img, d, b)
    requires forall y :: 0 <= y < FSSIZE && y != b ==> img'[y] == img[y]
    ensures Contents(img', d) == Contents(img, d)
  {
    hide DecodeWords;
    forall k: nat | k < MAXFILE ensures Ptr(img', d, k) == Ptr(img, d, k) != b {
    }
    hide Ptr;
    SameBytes(img, d, img', d);
  }

  // What inode number i written past the inode blocks means for file f.
  ghost predicate Past(img: Img, i: nat, d: DInode, f: DInode, j: nat, owner: map<nat, Owner>) {
    && ImgOk(img) && InodeOk(d) && InodeOk(f) && f.size <= MAXFILE * BSIZE && OwnsOk(img, j, f, owner)
    && NMETA <= INODESTART + i / IPB < FSSIZE
  }

  /** An inode from 224 on hits file j exactly if the file uses the block: otherwise the file stays as it is. */
  lemma InodeMisses(img: Img, i: nat, d: DInode, f: DInode, j: nat, owner: map<nat, Owner>)
    requires Past(img, i, d, f, j, owner)
    ensures Uses(img, f, INODESTART + i / IPB) ==>
      INODESTART + i / IPB in owner && owner[INODESTART + i / IPB].inum == j
    ensures !Uses(img, f, INODESTART + i / IPB) ==> Contents(InodeSet(img, i, d), f) == Contents(img, f)
  {
    hide InodeSet, Contents, OwnsOk;
    var bn := INODESTART + i / IPB;
    UserOwns(img, f, j, owner, bn);
    if !Uses(img, f, bn) {
      NotUsed(img, InodeSet(img, i, d), f, bn);
    }
  }

  /** A data block of the file that is hit reads as the sector with the inode in it. */
  lemma InodeOverData(img: Img, i: nat, d: DInode, f: DInode, j: nat, owner: map<nat, Owner>, k: nat)
    requires Past(img, i, d, f, j, owner)
    requires k < MAXFILE && Ptr(img, f, k) == INODESTART + i / IPB && (k + 1) * BSIZE <= f.size
    ensures Contents(InodeSet(img, i, d), f)[k * BSIZE..(k + 1) * BSIZE] ==
      WithInode(img[INODESTART + i / IPB], i % IPB, d)
  {
    hide Contents, OwnsOk, WithInode, Ptr;
    var bn, img' := INODESTART + i / IPB, InodeSet(img, i, d);
    DataStays(img, img', f, j, owner, bn, k);
    BlockReads(img', f, k, bn);
  }

  /** An index block of the file that is hit points wherever the words of the inode say. */
  lemma InodeOverIndex(img: Img, i: nat, d: DInode, f: DInode, j: nat, owner: map<nat, Owner>, w: nat)
    requires Past(img, i, d, f, j, owner) && f.addrs[NDIRECT] == INODESTART + i / IPB && w < 16
    ensures Ptr(InodeSet(img, i, d), f, NDIRECT + 16 * (i % IPB) + w) == InodeWords(d)[w]
  {
    hide OwnsOk, WithInode, DecodeWords, InodeWords;
    SlotWords(img[INODESTART + i / IPB], i % IPB, d, w);
  }

  lemma UserOwns(img: Img, f: DInode, j: nat, owner: map<nat, Owner>, b: nat)
    requires ImgOk(img) && InodeOk(f) && OwnsOk(img, j, f, owner) && b != 0
    ensures Uses(img, f, b) ==> b in owner && owner[b].inum == j
  {
    hide Ptr;
  }

  // A data block is never the index block, so changing it moves no pointer to it.
  lemma DataStays(img: Img, img': Img, f: DInode, j: nat, owner: map<nat, Owner>, b: nat, k: nat)
    requires ImgOk(img) && ImgOk(img') && InodeOk(f) && OwnsOk(img, j, f, owner) && b != 0
    requires k < MAXFILE && Ptr(img, f, k) == b && forall y :: 0 <= y < FSSIZE && y != b ==> img'[y] == img[y]
    ensures Ptr(img', f, k) == b
  {
    hide DecodeWords;
    assert owner[b] == DataOf(j, k);
  }

  lemma BlockReads(img: Img, d: DInode, k: nat, b: nat)
    requires ImgOk(img) && InodeOk(d) && d.size <= MAXFILE * BSIZE && (k + 1) * BSIZE <= d.size
    requires k < MAXFILE && b < FSSIZE && Ptr(img, d, k) == b
    ensures Contents(img, d)[k * BSIZE..(k + 1) * BSIZE] == img[b]
  {
    hide Ptr;
    forall x | 0 <= x < BSIZE ensures Contents(img, d)[k * BSIZE + x] == img[b][x] {
      assert (k * BSIZE + x) / BSIZE == k && (k * BSIZE + x) % BSIZE == x;
    }
  }

  lemma SlotWords(sec: Sector, k: nat, d: DInode, w: nat)
    requires |sec| == BSIZE && k < IPB && InodeOk(d) && w < 16
    ensures DecodeWords(WithInode(sec, k, d))[16 * k + w] == InodeWords(d)[w]
  {
    hide InodeWords, EncodeWords;
    var ws := DecodeWords(sec);
    DecodeEncode(ws[..16 * k] + InodeWords(d) + ws[16 * k + 16..]);
  }

  class FsImg {
    var img: Img
    var freeinode: nat
    var freeblock: nat
    ghost var inodes: map<nat, DInode>
    ghost var owner: map<nat, Owner>

    ghost predicate Valid()
      reads this
    {
      && FsOk(img, freeblock, inodes, owner)
      && TableOk(img, inodes)
      && AllTight(img, inodes)
      && forall i <- inodes :: i < freeinode
    }

    // An image of zeroed blocks.
    constructor ()
      ensures Valid() && freeinode == 1 && freeblock == NMETA && inodes == map[] && owner == map[]
    {
      img := seq(FSSIZE, _ => seq(BSIZE, _ => 0));
      freeinode, freeblock := 1, NMETA;
      inodes, owner := map[], map[];
    }

    // The inode of the given number, wherever it lies; reading past the image dies.
    method Rinode(inum: nat) returns (ok: bool, d: DInode)
      requires ImgOk(img)
      ensures ok <==> INODESTART + inum / IPB < FSSIZE
      ensures InodeOk(d) && (ok ==> d == InodeAt(img[INODESTART + inum / IPB], inum % IPB))
      ensures TableOk(img, inodes) && inum in inodes ==> ok && d == inodes[inum]
    {
      ok := INODESTART + inum / IPB < FSSIZE;
      d := if ok then InodeAt(img[INODESTART + inum / IPB], inum % IPB) else EmptyInode(0);
    }

    method Winode(inum: nat, d: DInode) returns (ok: bool)
      requires ImgOk(img) && TableOk(img, inodes) && InodeOk(d)
      modifies this`img, this`inodes
      ensures ok <==> INODESTART + inum / IPB < FSSIZE
      ensures img == if ok then InodeSet(old(img), inum, d) else old(img)
      ensures inodes == if inum < NINODEBLOCKS * IPB then old(inodes)[inum := d] else old(inodes)
      ensures ImgOk(img) && TableOk(img, inodes)
    {
      hide InodeSet, InodeAt;
      ok := INODESTART + inum / IPB < FSSIZE;
      if ok {
        ghost var before := img;
        img := InodeSet(img, inum, d);
        if inum < NINODEBLOCKS * IPB {
          TableWrite(before, inodes, inum, d);
          inodes := inodes[inum := d];
        } else {
          TableFrame(before, img, inodes);
        }
      }
    }

    // A new, empty inode.  Nothing stops the inode numbers from running past the inode blocks.  As long as they
    // end in the bitmap every other file stays as it is; InodeMisses says when one is hit after that.
    method Ialloc(itype: Half) returns (inum: nat, r: Outcome)
      requires Valid()
      modifies this`img, this`inodes, this`freeinode
      ensures inum == old(freeinode) && freeinode == inum + 1
      ensures r == if INODESTART + inum / IPB < FSSIZE then Done else Died
      ensures img == if r == Done then InodeSet(old(img), inum, EmptyInode(itype)) else old(img)
      ensures inum < NINODEBLOCKS * IPB ==>
        inodes == old(inodes)[inum := EmptyInode(itype)] && Contents(img, inodes[inum]) == []
      // wherever it lands, what is read back there is a new inode of the type asked for
      ensures r == Done ==> ImgOk(img) && IsNew(InodeAt(img[INODESTART + inum / IPB], inum % IPB), itype)
      ensures inum >= NINODEBLOCKS * IPB ==> inodes == old(inodes)
      ensures inum < (NINODEBLOCKS + 1) * IPB || r == Died ==>
        Valid() && forall j <- old(inodes) :: Contents(img, inodes[j]) == Contents(old(img), inodes[j])
    {
      hide InodeSet, InodeAt, OwnsOk, Tight, Contents, Zero, SamePtrs;
      inum := freeinode;
      freeinode := freeinode + 1;
      ghost var before, files := img, inodes;
      var d := EmptyInode(itype);
      var ok := Winode(inum, d);
      if !ok {
        return inum, Died;
      }
      PastTheTable(before, inum, d);
      if inum < (NINODEBLOCKS + 1) * IPB {
        MetaWrite(before, img, freeblock, files, owner);
        TightKept(before, img, files);
        EmptyOwns(img, inum, itype, owner);
      }
      r := Done;
    }

    // The loss, end to end: a file whose inode lands in the bitmap cannot be read back once balloc has run.
    method IallocThenBalloc(itype: Half, used: nat) returns (inum: nat, ok: bool, ghost born: DInode)
      requires Valid()
      modifies this`img, this`inodes, this`freeinode
      ensures inum == old(freeinode)
      // it was there, with a link, before the bitmap was written
      ensures inum < (NINODEBLOCKS + 1) * IPB ==> IsNew(born, itype)
      ensures NINODEBLOCKS * IPB <= inum < (NINODEBLOCKS + 1) * IPB && used < BSIZE * 8 ==>
        && Valid()
        && var d := InodeAt(img[INODESTART + inum / IPB], inum % IPB);
           d.minor == 0 ==> d.nlink == 0
    {
      hide InodeAt, FirstBits, OwnsOk, Zero, TableOk, AllTight, Contents, BitSet, InodeSet;
      var r;
      inum, r := Ialloc(itype);
      ok := false;
      born := DInode(0, 0, 0, 0, 0, []);
      if inum < (NINODEBLOCKS + 1) * IPB {
        born := InodeAt(img[INODESTART + inum / IPB], inum % IPB);
        ok := Balloc(used);
        if ok {
          BitmapLosesInodes(img[BMAPSTART], used, inum % IPB);
        }
      }
    }

    // Find or allocate the block for block fbn of the file, whose inode the table tbl already lists as d.
    method BlockFor(ghost tbl: map<nat, DInode>, inum: nat, d: DInode, fbn: nat) returns (ok: bool, d': DInode, x: nat)
      requires FsOk(img, freeblock, tbl, owner) && inum in tbl && tbl[inum] == d && fbn < MAXFILE
      modifies this`img, this`freeblock, this`owner
      ensures InodeOk(d') && d' == d.(addrs := d'.addrs)
      ensures ok <==> old(freeblock) + NewBlocks(old(img), d, fbn) <= FSSIZE
      ensures ok ==> Located(tbl, old(img), inum, d, d', fbn, x)
      ensures ok ==> freeblock == old(freeblock) + NewBlocks(old(img), d, fbn)
    {
      if fbn < NDIRECT {
        ok, d', x := DirectFor(tbl, inum, d, fbn);
      } else {
        ok, d', x := IndirectFor(tbl, inum, d, fbn);
      }
    }

    method DirectFor(ghost tbl: map<nat, DInode>, inum: nat, d: DInode, fbn: nat) returns (ok: bool, d': DInode, x: nat)
      requires FsOk(img, freeblock, tbl, owner) && inum in tbl && tbl[inum] == d && fbn < NDIRECT
      modifies this`img, this`freeblock, this`owner
      ensures InodeOk(d') && d' == d.(addrs := d'.addrs)
      ensures ok <==> old(freeblock) + NewBlocks(old(img), d, fbn) <= FSSIZE
      ensures ok ==> Located(tbl, old(img), inum, d, d', fbn, x)
      ensures ok ==> freeblock == old(freeblock) + NewBlocks(old(img), d, fbn)
    {
      hide OwnsOk, Contents, DecodeWords;
      d' := d;
      x := 0;
      assert tbl[inum := d] == tbl;
      if d'.addrs[fbn] == 0 {
        if freeblock >= FSSIZE {
          return false, d', 0;
        }
        NewDirect(img, freeblock, tbl, owner, inum, fbn);
        d' := WithAddr(d', fbn, freeblock);
        owner := owner[freeblock := DataOf(inum, fbn)];
        freeblock := freeblock + 1;
      }
      x := d'.addrs[fbn];
      PtrOwned(img, freeblock, tbl[inum := d'], owner, inum, fbn);
      ok := true;
    }

    method IndirectFor(ghost tbl: map<nat, DInode>, inum: nat, d: DInode, fbn: nat)
      returns (ok: bool, d': DInode, x: nat)
      requires FsOk(img, freeblock, tbl, owner) && inum in tbl && tbl[inum] == d && NDIRECT <= fbn < MAXFILE
      modifies this`img, this`freeblock, this`owner
      ensures InodeOk(d') && d' == d.(addrs := d'.addrs)
      ensures ok <==> old(freeblock) + NewBlocks(old(img), d, fbn) <= FSSIZE
      ensures ok ==> Located(tbl, old(img), inum, d, d', fbn, x)
      ensures ok ==> freeblock == old(freeblock) + NewBlocks(old(img), d, fbn)
    {
      hide OwnsOk, Contents, DecodeWords, Zero;
      d' := d;
      ghost var tbl' := tbl;
      if d'.addrs[NDIRECT] == 0 {
        if freeblock >= FSSIZE {
          return false, d', 0;
        }
        NewIndex(img, freeblock, tbl, owner, inum);
        d' := WithAddr(d', NDIRECT, freeblock);
        owner := owner[freeblock := IndexOf(inum)];
        freeblock := freeblock + 1;
        tbl' := tbl[inum := d'];
      }
      ok, x := EntryFor(tbl', inum, d', fbn);
      if ok {
        OthersSameTable(old(img), img, tbl, tbl', inum);
        assert tbl'[inum := d'] == tbl[inum := d'];
      }
    }

    // Block fbn of the file is at x, and nothing but the pointers to it has changed since img0.
    ghost predicate Located(tbl: map<nat, DInode>, img0: Img, inum: nat, d: DInode, d': DInode, fbn: nat, x: nat)
      requires fbn < MAXFILE && ImgOk(img0) && InodesOk(tbl) && InodeOk(d) && InodeOk(d')
      requires d.size == d'.size <= MAXFILE * BSIZE
      reads this
    {
      && FsOk(img, freeblock, tbl[inum := d'], owner)
      && Contents(img, d') == Contents(img0, d)
      && Gains(img0, d, img, d', fbn, x) && NMETA <= x < FSSIZE
      && (d'.addrs[NDIRECT] != 0 <==> d.addrs[NDIRECT] != 0 || fbn >= NDIRECT)
      && OthersSame(img0, img, tbl, inum)
      && forall b :: 0 <= b < NMETA ==> img[b] == img0[b]
    }

    // The same through the index block, which the file already has.
    method EntryFor(ghost tbl: map<nat, DInode>, inum: nat, d: DInode, fbn: nat) returns (ok: bool, x: nat)
      requires FsOk(img, freeblock, tbl, owner) && inum in tbl && tbl[inum] == d
      requires NDIRECT <= fbn < MAXFILE && d.addrs[NDIRECT] != 0
      modifies this`img, this`freeblock, this`owner
      ensures ok <==> old(freeblock) + NewBlocks(old(img), d, fbn) <= FSSIZE
      ensures ok ==> Located(tbl, old(img), inum, d, d, fbn, x)
      ensures ok ==> freeblock == old(freeblock) + NewBlocks(old(img), d, fbn)
    {
      hide OwnsOk, Contents, WithIndex, DecodeWords;
      ok := false;
      x := 0;
      assert tbl[inum := d] == tbl;
      IndexOwned(img, freeblock, tbl, owner, inum);
      var at := d.addrs[NDIRECT];
      if DecodeWords(img[at])[fbn - NDIRECT] == 0 {
        if freeblock >= FSSIZE {
          return;
        }
        NewIndirect(img, freeblock, tbl, owner, inum, fbn);
        img := WithIndex(img, at, fbn - NDIRECT, freeblock);
        owner := owner[freeblock := DataOf(inum, fbn)];
        freeblock := freeblock + 1;
      }
      x := DecodeWords(img[at])[fbn - NDIRECT];
      PtrOwned(img, freeblock, tbl, owner, inum, fbn);
      ok := true;
    }

    // One round of iappend: append the bytes that still fit in the block at the end of the file.
    method AppendChunk(ghost files: map<nat, DInode>, inum: nat, d: DInode, bytes: seq<Byte>)
      returns (ok: bool, d': DInode)
      requires inum in files && InodesOk(files) && InodeOk(d) && FsOk(img, freeblock, files[inum := d], owner)
      requires d.size / BSIZE < MAXFILE && 0 < |bytes| <= (d.size / BSIZE + 1) * BSIZE - d.size
      requires Tight(img, d)
      modifies this`img, this`freeblock, this`owner
      ensures InodeOk(d')
      ensures ok <==> old(freeblock) + Blocks(d.size + |bytes|) - Blocks(d.size) <= FSSIZE
      ensures ok ==> freeblock == old(freeblock) + Blocks(d.size + |bytes|) - Blocks(d.size)
      ensures ok ==>
        && d' == d.(size := d.size + |bytes|, addrs := d'.addrs) && d'.size <= MAXFILE * BSIZE
        && FsOk(img, freeblock, files[inum := d'], owner)
        && Contents(img, d') == Contents(old(img), d) + bytes
        && Tight(img, d')
        && OthersSame(old(img), img, files, inum)
        && forall b :: 0 <= b < NMETA ==> img[b] == old(img)[b]
    {
      hide OwnsOk, Contents, Ptr, WithBytes, Tight, NewBlocks, Blocks;
      TightNeeds(img, d, |bytes|);
      ghost var tbl := files[inum := d];
      var x;
      ok, d', x := BlockFor(tbl, inum, d, d.size / BSIZE);
      if ok {
        ghost var tbl', between := tbl[inum := d'], img;
        Appended(img, freeblock, tbl', owner, inum, bytes);
        img := img[x := WithBytes(img[x], d.size % BSIZE, bytes)];
        d' := d'.(size := d.size + |bytes|);
        assert tbl'[inum := d'] == files[inum := d'];
        OthersChain(old(img), between, img, files, tbl, tbl', inum);
        TightGrows(old(img), d, img, d', |bytes|, x);
      }
    }

    // Append data to a file.
    method Iappend(inum: nat, data: seq<Byte>) returns (r: Outcome)
      requires Valid() && inum in inodes
      modifies this`img, this`freeblock, this`inodes, this`owner
      ensures r == Done ==> Valid() && inum in inodes && IsAppend(old(img), old(inodes), img, inodes, inum, data)
      ensures var size := old(inodes)[inum].size;
        && (r == Done ==> freeblock == old(freeblock) + Blocks(size + |data|) - Blocks(size))
        && (r == Died <==> old(freeblock) + Blocks(Capped(size + |data|)) - Blocks(size) > FSSIZE)
        && (r == TooBig <==> r != Died && size + |data| > MAXFILE * BSIZE)
    {
      hide OwnsOk, Contents, TableOk, Ptr, Zero, Tight, Blocks, SamePtrs, OthersSame, InodeAt, AllTight;
      TableBound(img, inodes, inum);
      ghost var img0, files := img, inodes;
      var found, d := Rinode(inum);
      var off, p, n := d.size, 0, |data|;
      ghost var was := Contents(img, d);
      assert inodes[inum := d] == inodes;
      TightOne(img, inodes, inum);
      OthersStart(img, inodes, inum);
      assert was + data[..0] == was;
      while n > 0
        invariant 0 <= n && 0 <= p && n + p == |data| && InodeOk(d) && inodes == files
        invariant d.size == off == files[inum].size + p <= MAXFILE * BSIZE
        invariant d == files[inum].(size := off, addrs := d.addrs)
        invariant FsOk(img, freeblock, files[inum := d], owner) && Tight(img, d)
        invariant freeblock == old(freeblock) + Blocks(off) - Blocks(files[inum].size)
        invariant Contents(img, d) == was + data[..p]
        invariant OthersSame(img0, img, files, inum)
        invariant forall b :: 0 <= b < NMETA ==> img[b] == img0[b]
      {
        var fbn := off / BSIZE;
        if fbn >= MAXFILE {
          return TooBig;
        }
        ghost var before := img;
        var n1 := if n < (fbn + 1) * BSIZE - off then n else (fbn + 1) * BSIZE - off;
        BlocksGrow(off + n1, Capped(files[inum].size + |data|));
        var ok;
        ok, d := AppendChunk(files, inum, d, data[p..p + n1]);
        if !ok {
          return Died;
        }
        assert data[..p] + data[p..p + n1] == data[..p + n1];
        OthersChain(img0, before, img, files, files, files, inum);
        n, off, p := n - n1, off + n1, p + n1;
      }
      assert data[..p] == data;
      TightUpdated(img0, img, files, inum, d);
      FinishAppend(img0, files, inum, d);
      r := Done;
    }

    // Write the inode of a file whose blocks are in place.
    method FinishAppend(ghost img0: Img, ghost files: map<nat, DInode>, inum: nat, d: DInode)
      requires inodes == files && inum in files && InodesOk(files) && InodeOk(d) && d.size <= MAXFILE * BSIZE
      requires ImgOk(img0) && TableOk(img0, files) && (forall i <- files :: i < freeinode)
      requires FsOk(img, freeblock, files[inum := d], owner) && forall b :: 0 <= b < NMETA ==> img[b] == img0[b]
      requires OthersSame(img0, img, files, inum) && AllTight(img, files[inum := d])
      modifies this`img, this`inodes
      ensures Valid() && inodes == files[inum := d] && Contents(img, d) == Contents(old(img), d)
      ensures OthersSame(img0, img, files, inum)
    {
      hide OwnsOk, Contents, TableOk, Zero, Tight, InodeSet, InodeAt, SamePtrs;
      TableBound(img0, files, inum);
      ghost var filled := img;
      TableFrame(img0, img, inodes);
      var ok := Winode(inum, d);
      MetaWrite(filled, img, freeblock, files[inum := d], owner);
      TightKept(filled, img, files[inum := d]);
      assert files[inum := d][inum] == d;
      OthersSameTable(filled, img, files, files[inum := d], inum);
      OthersChain(img0, filled, img, files, files, files, inum);
    }

    // A new file with its first bytes, read back: type and link are those ialloc gave it.
    method NewFile(itype: Half, data: seq<Byte>) returns (inum: nat, r: Outcome, d: DInode)
      requires Valid()
      modifies this`img, this`inodes, this`freeinode, this`freeblock, this`owner
      ensures inum == old(freeinode)
      ensures r == Done && inum < NINODEBLOCKS * IPB ==>
        && Valid() && inum in inodes && d == inodes[inum]
        && d.itype == itype && d.nlink == 1 && d.major == 0 && d.minor == 0
        && d.size == |data| && Contents(img, d) == data
        && forall j <- old(inodes) ::
             j != inum && j in inodes && Contents(img, inodes[j]) == Contents(old(img), inodes[j])
    {
      hide OwnsOk, TableOk, Ptr, Zero, AllTight, InodeSet, InodeAt, Contents, SamePtrs;
      d := EmptyInode(0);
      inum, r := Ialloc(itype);
      if r == Done && inum < NINODEBLOCKS * IPB {
        ghost var between, files := img, inodes;
        r := Iappend(inum, data);
        if r == Done {
          var found;
          found, d := Rinode(inum);
          assert [] + data == data;
        }
      }
    }

    // Mark the first used blocks in the bitmap block; false means the size assertion.
    method Balloc(used: nat) returns (ok: bool)
      requires Valid()
      modifies this`img
      ensures ok <==> used < BSIZE * 8
      ensures !ok ==> img == old(img)
      ensures ok ==>
        && Valid()
        && FirstBits(img[BMAPSTART], used)
        && (forall i: nat :: i < BSIZE * 8 ==> (BitSet(img[BMAPSTART], i) <==> i < used))
        && (forall j <- inodes :: Contents(img, inodes[j]) == Contents(old(img), inodes[j]))
    {
      hide OwnsOk, Contents, TableOk, BitSet, FirstBits, Tight;
      ok := used < BSIZE * 8;
      if ok {
        var buf: Sector := seq(BSIZE, _ => 0);
        assert Zero(buf);
        FirstNone(buf);
        for i := 0 to used
          invariant |buf| == BSIZE && FirstBits(buf, i) && img == old(img)
        {
          MarkNext(buf, i);
          buf := buf[i / 8 := OrBit(buf[i / 8], i % 8)];
        }
        forall i: nat | i < BSIZE * 8 ensures BitSet(buf, i) <==> i < used {
          MarkedBits(buf, used, i);
        }
        ghost var before := img;
        img := img[BMAPSTART := buf];
        TableFrame(before, img, inodes);
        MetaWrite(before, img, freeblock, inodes, owner);
        TightKept(before, img, inodes);
      }
    }
  }
}
