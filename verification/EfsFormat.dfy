/** The disk that mkefs makes (efs/mkefs.c). */
module EfsFormat {
  import opened Bytes
  import opened EfsLayout
  import opened EfsAlloc
  import opened EfsDir

  /** new_superblock and the fields create_superblock sets, in a cleared block 0. */
  function SuperBlock(blocks: nat): (b: Block)
    requires blocks >= DATA_AT
    ensures |b| == BLOCK_SIZE
  {
    var z := Zeros(BLOCK_SIZE)[512 := 0xFF][513 := 69][514 := 102][515 := 83];
    PutU32(PutU32(PutU32(PutU32(z, 516, 1), 520, INODES), 524, DATA_AT), 528, blocks - DATA_AT)
  }

  /** The root directory's only entry names itself, and its inode number is 0. */
  function RootBlock(): (b: Block)
    ensures |b| == BLOCK_SIZE
  {
    Zeros(BLOCK_SIZE)[0 := DOT][1 := 0][12 := 0]
  }

  function RootInode(): Inode { WithRefs(WithSize(Zeros(INODE_LEN), ENTRY_SIZE), 1) }

  /** Superblock, cleared inode table and root directory block, over whatever was on the disk. */
  function Cleared(d: Disk): (r: Disk)
    requires |d| > DATA_AT
    ensures |r| == |d|
  {
    d[0 := SuperBlock(|d|)][1 := Zeros(BLOCK_SIZE)][2 := Zeros(BLOCK_SIZE)][3 := Zeros(BLOCK_SIZE)]
        [4 := Zeros(BLOCK_SIZE)][DATA_AT := RootBlock()]
  }

  /** A disk of whole blocks that the bitmap has room for. */
  ghost predicate Raw(d: Disk) { Shaped(d) && |d| <= DATA_AT + MAX_DATA }

  function Made(d: Disk): Disk
    requires Raw(d)
  {
    ClearedFormatted(d);
    Marked(SetInode(Cleared(d), 0, RootInode()), 0)
  }

  lemma SuperBlockFields(n: nat)
    requires DATA_AT < n <= DATA_AT + MAX_DATA
    ensures var b := SuperBlock(n);
      U32At(b, 516) == 1 && U32At(b, 520) == INODES && U32At(b, 524) == DATA_AT && U32At(b, 528) == n - DATA_AT
    ensures SuperBlock(n)[512..516] == [0xFF, 'E' as int, 'f' as int, 'S' as int]
    ensures forall i :: 0 <= i < 512 || MAP_AT <= i < BLOCK_SIZE ==> SuperBlock(n)[i] == 0
  {
    var z := Zeros(BLOCK_SIZE)[512 := 0xFF][513 := 69][514 := 102][515 := 83];
    var b1 := PutU32(z, 516, 1);
    var b2 := PutU32(b1, 520, INODES);
    var b3 := PutU32(b2, 524, DATA_AT);
    PutGet(z, 516, 1);
    PutGet(b1, 520, INODES);
    PutGet(b2, 524, DATA_AT);
    PutGet(b3, 528, n - DATA_AT);
    PutOther(b1, 520, INODES, 516);
    PutOther(b2, 524, DATA_AT, 516);
    PutOther(b2, 524, DATA_AT, 520);
    PutOther(b3, 528, n - DATA_AT, 516);
    PutOther(b3, 528, n - DATA_AT, 520);
    PutOther(b3, 528, n - DATA_AT, 524);
  }

  lemma ClearedFormatted(d: Disk)
    requires Raw(d)
    ensures Formatted(Cleared(d)) && |SetInode(Cleared(d), 0, RootInode())| == |d|
    ensures |SetInode(Cleared(d), 0, RootInode())[0]| == BLOCK_SIZE
  {
    SuperBlockFields(|d|);
    GetSet(Cleared(d), 0, RootInode());
  }

  /** validate_efs: it fails only if each of the four bytes is wrong. */
  predicate ValidateEfs(d: Disk)
    requires Shaped(d)
  {
    d[0][512] == 0xFF || d[0][513] == 69 || d[0][514] == 102 || d[0][515] == 83
  }

  /** One right byte out of the four is enough. */
  lemma ValidateExact(d: Disk)
    requires Shaped(d)
    ensures ValidateEfs(d) <==> exists i :: 0 <= i < 4 && d[0][512 + i] == [0xFF, 69, 102, 83][i]
  {
    var ident := [0xFF, 69, 102, 83];
    assert d[0][512] == ident[0] || d[0][513] == ident[1] || d[0][514] == ident[2] || d[0][515] == ident[3]
      ==> exists i :: 0 <= i < 4 && d[0][512 + i] == ident[i];
  }

  /** What a new disk has in block 0: the superblock, and the one bit of the directory's block. */
  lemma MadeBlock0(d: Disk)
    requires Raw(d)
    ensures Formatted(Made(d)) && Made(d)[0] == SuperBlock(|d|)[532 := 128] && ValidateEfs(Made(d))
  {
    hide SetInode;
    ClearedFormatted(d);
    GetSet(Cleared(d), 0, RootInode());
    SuperBlockFields(|d|);
    assert SuperBlock(|d|)[512..516][0] == SuperBlock(|d|)[512];
    MarkedBits(SetInode(Cleared(d), 0, RootInode()), 0);
    assert Mask(7) == 128 by { assert Mask(3) == 8; }
    NoBits(0, 7);
  }

  /** A disk that has grown from it has the same superblock, and is as valid. */
  lemma SuperStays(d: Disk, d': Disk)
    requires Raw(d) && Formatted(d') && Formatted(Made(d)) && d'[0][..MAP_AT] == Made(d)[0][..MAP_AT]
    ensures d'[0][..532] == SuperBlock(|d|)[..532] && ValidateEfs(d')
  {
    hide SuperBlock, Made;
    MadeBlock0(d);
    assert SuperBlock(|d|)[532 := 128][..532] == SuperBlock(|d|)[..532];
    assert d'[0][512] == d'[0][..MAP_AT][512] && Made(d)[0][512] == Made(d)[0][..MAP_AT][512];
    SuperBlockFields(|d|);
    assert SuperBlock(|d|)[512..516][0] == SuperBlock(|d|)[512];
  }

  lemma {:induction false} NoBits(x: nat, k: nat)
    requires x == 0
    ensures !Bit(x, k)
  {
    if k > 0 { NoBits(x / 2, k - 1); }
  }

  lemma ClearedInodes(d: Disk, n: nat)
    requires Raw(d) && n < INODES
    ensures Formatted(Cleared(d)) && GetInode(Cleared(d), n) == Zeros(INODE_LEN)
  {
    ClearedFormatted(d);
    assert Cleared(d)[InodeBlock(n)] == Zeros(BLOCK_SIZE);
  }

  lemma RootEntries()
    ensures EntryIs(RootBlock(), 0, [DOT])
    ensures forall k :: 1 <= k < ENTRIES ==> EntryEmpty(RootBlock(), k)
  {
    var b := RootBlock();
    assert NameOf(b, 0) == Padded([DOT]);
    forall k | 1 <= k < ENTRIES ensures EntryEmpty(b, k) {
      assert b[ENTRY_SIZE * k..ENTRY_SIZE * (k + 1)] == Zeros(ENTRY_SIZE);
    }
  }

  /** mkefs establishes what every run of writeefs keeps: a directory with only itself in it, and every
      data block but its own free. */
  lemma MadeEffect(d: Disk)
    requires Raw(d)
    ensures Dir(Made(d), [[DOT]])
    ensures forall b :: 0 <= b < DataCount(Made(d)) ==> (Used(Made(d), b) <==> b == 0)
  {
    hide SuperBlock, RootBlock, Cleared, Marked, SetInode, GetInode;
    ClearedFormatted(d);
    var c := Cleared(d);
    var d1 := SetInode(c, 0, RootInode());
    GetSet(c, 0, RootInode());
    SetKeepsRefs(c, 0, RootInode());
    Fields(Zeros(INODE_LEN), 0, ENTRY_SIZE);
    Fields(WithSize(Zeros(INODE_LEN), ENTRY_SIZE), 0, 1);
    MarkedBits(d1, 0);
    MarkKeepsRefs(d1, 0);
    var d2 := Marked(d1, 0);
    forall n | 0 <= n < INODES ensures GetInode(c, n) == Zeros(INODE_LEN) { ClearedInodes(d, n); }
    forall n, s | 0 <= n < INODES && 0 <= s < SLOTS ensures Ref(d2, n, s) == 0 {
      BlankRefs(c, n, s);
    }
    forall n | 0 <= n < INODES ensures InodeIs(d2, n, 1) {}
    RootEntries();
    RootThere(d);
    forall b | 0 <= b < MAX_DATA ensures Used(d2, b) <==> b == 0 { ClearedUnused(d, b); }
  }

  lemma BlankRefs(c: Disk, n: nat, s: nat)
    requires Formatted(c) && n < INODES && s < SLOTS && GetInode(c, n) == Zeros(INODE_LEN)
    ensures Ref(c, n, s) == 0 && RefOf(c, RootInode(), s) == 0
  {
    BlankInode(c, n);
    Fields(Zeros(INODE_LEN), 0, ENTRY_SIZE);
    Fields(WithSize(Zeros(INODE_LEN), ENTRY_SIZE), 0, 1);
  }

  lemma RootThere(d: Disk)
    requires Raw(d)
    ensures Cleared(d)[DATA_AT] == RootBlock()
  {
  }

  lemma ClearedUnused(d: Disk, b: nat)
    requires Raw(d) && b < MAX_DATA
    ensures |Cleared(d)[0]| == BLOCK_SIZE && !Used(Cleared(d), b)
  {
    SuperBlockFields(|d|);
    assert Cleared(d)[0] == SuperBlock(|d|);
    NoBits(0, 7 - b % 8);
  }
}
