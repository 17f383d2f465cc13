/** The root directory (efs/efs.c): one block of 16 byte entries, a padded name and an inode number. */
module EfsDir {
  import opened Wrappers
  import opened SeqLemmas
  import opened Bytes
  import opened EfsLayout
  import opened EfsAlloc

  const NAME_SIZE: nat := 12
  const ENTRY_SIZE: nat := 16
  const ENTRIES: nat := 64
  const DOT: byte := 46

  // ---------------------------------------------------------------- names

  /** strncmp(r, s, n) == 0 for bytes `r` in memory and a C string `s` given without its NUL. */
  predicate StrnEq(r: seq<byte>, s: seq<byte>, n: nat)
    requires n <= |r|
    decreases n
  {
    if n == 0 then true
    else
      var c := if s == [] then 0 else s[0];
      r[0] == c && (c == 0 || StrnEq(r[1..], s[1..], n - 1))
  }

  predicate NoNul(s: seq<byte>) { forall i :: 0 <= i < |s| ==> s[i] != 0 }

  /** strncpy(_, s, n) */
  function StrnCpy(s: seq<byte>, n: nat): (r: seq<byte>)
    ensures |r| == n
  {
    if |s| >= n then s[..n] else s + Zeros(n - |s|)
  }

  /** The name of a directory entry: strncpy of 11 bytes, and a last byte that is never written. */
  function Padded(s: seq<byte>): (r: seq<byte>)
    ensures |r| == NAME_SIZE
  {
    StrnCpy(s, NAME_SIZE - 1) + [0]
  }

  /** A stored name is found under exactly that name. */
  lemma {:induction false} StrnEqPads(s: seq<byte>, t: seq<byte>, n: nat)
    requires NoNul(s) && NoNul(t) && |s| < n && |t| < n
    ensures StrnEq(s + Zeros(n - |s|), t, n) <==> s == t
    decreases n
  {
    var r := s + Zeros(n - |s|);
    if s != [] && t != [] && s[0] == t[0] {
      assert r[1..] == s[1..] + Zeros(n - 1 - |s[1..]|);
      StrnEqPads(s[1..], t[1..], n - 1);
      assert s == [s[0]] + s[1..] && t == [t[0]] + t[1..];
    }
  }

  lemma PaddedFound(s: seq<byte>, t: seq<byte>)
    requires NoNul(s) && NoNul(t) && |s| < NAME_SIZE && |t| < NAME_SIZE
    ensures StrnEq(Padded(s), t, NAME_SIZE) <==> s == t
  {
    assert Padded(s) == s + Zeros(NAME_SIZE - |s|);
    StrnEqPads(s, t, NAME_SIZE);
  }

  /** A name of 12 or more characters is never found: the stored one is cut short. */
  lemma {:induction false} LongNeverEqual(r: seq<byte>, t: seq<byte>, n: nat)
    requires 0 < n <= |r| && n <= |t| && NoNul(t) && r[n - 1] == 0
    ensures !StrnEq(r, t, n)
    decreases n
  {
    if n > 1 { LongNeverEqual(r[1..], t[1..], n - 1); }
  }

  // ---------------------------------------------------------------- entries

  function NameOf(blk: Block, j: nat): seq<byte>
    requires |blk| == BLOCK_SIZE && j < ENTRIES
  {
    blk[ENTRY_SIZE * j..ENTRY_SIZE * j + NAME_SIZE]
  }

  function NumberOf(blk: Block, j: nat): nat
    requires |blk| == BLOCK_SIZE && j < ENTRIES
  {
    U32At(blk, ENTRY_SIZE * j + NAME_SIZE)
  }

  /** The first entry from `j` on with this name; 64 when there is none. */
  function FindEntry(blk: Block, s: seq<byte>, j: nat): (r: nat)
    requires |blk| == BLOCK_SIZE && j <= ENTRIES
    ensures j <= r <= ENTRIES
    ensures r < ENTRIES ==> StrnEq(NameOf(blk, r), s, NAME_SIZE)
    ensures forall i :: j <= i < r ==> !StrnEq(NameOf(blk, i), s, NAME_SIZE)
    decreases ENTRIES - j
  {
    if j == ENTRIES || StrnEq(NameOf(blk, j), s, NAME_SIZE) then j else FindEntry(blk, s, j + 1)
  }

  function FindFile(d: Disk, s: seq<byte>): Option<nat>
    requires Formatted(d)
  {
    var e := FindEntry(d[DATA_AT], s, 0);
    if e == ENTRIES then None else Some(NumberOf(d[DATA_AT], e))
  }

  // ---------------------------------------------------------------- the invariant

  predicate LegalName(s: seq<byte>) { 0 < |s| < NAME_SIZE && NoNul(s) }

  ghost predicate EntryIs(blk: Block, j: nat, s: seq<byte>)
    requires |blk| == BLOCK_SIZE && j < ENTRIES
  {
    NameOf(blk, j) == Padded(s) && NumberOf(blk, j) == j
  }

  ghost predicate EntryEmpty(blk: Block, j: nat)
    requires |blk| == BLOCK_SIZE && j < ENTRIES
  {
    blk[ENTRY_SIZE * j..ENTRY_SIZE * (j + 1)] == Zeros(ENTRY_SIZE)
  }

  /** Inode k is taken, with one reference, exactly when the directory has an entry k; a free inode is blank. */
  ghost predicate InodeIs(d: Disk, n: nat, names: nat)
    requires Formatted(d) && n < INODES
  {
    Refs(GetInode(d, n)) == (if n < names then 1 else 0) && (n >= names ==> GetInode(d, n) == Zeros(INODE_LEN))
  }

  /** The directory lists `names`; the first is the directory itself. */
  ghost predicate Dir(d: Disk, names: seq<seq<byte>>)
  {
    && Formatted(d) && PtrInv(d) && 0 < |names| <= ENTRIES && names[0] == [DOT] && NoDup(names)
    && (forall k :: 0 <= k < |names| ==> LegalName(names[k]))
    && (forall k :: 0 <= k < |names| ==> EntryIs(d[DATA_AT], k, names[k]))
    && (forall k :: |names| <= k < ENTRIES ==> EntryEmpty(d[DATA_AT], k))
    && Size(GetInode(d, 0)) == ENTRY_SIZE * |names|
    && (forall s :: 0 <= s < SLOTS ==> Ref(d, 0, s) == 0)
    && (forall n :: 0 <= n < INODES ==> InodeIs(d, n, |names|))
  }

  lemma EmptyNotFound(blk: Block, j: nat, s: seq<byte>)
    requires |blk| == BLOCK_SIZE && j < ENTRIES && EntryEmpty(blk, j) && LegalName(s)
    ensures !StrnEq(NameOf(blk, j), s, NAME_SIZE)
  {
    assert NameOf(blk, j)[0] == blk[ENTRY_SIZE * j..ENTRY_SIZE * (j + 1)][0];
  }

  /** A file is found exactly under its name, and its inode number is its place in the directory. */
  lemma FindFileExact(d: Disk, names: seq<seq<byte>>, s: seq<byte>)
    requires Dir(d, names) && LegalName(s)
    ensures forall k :: 0 <= k < |names| && names[k] == s ==> FindFile(d, s) == Some(k)
    ensures FindFile(d, s).None? <==> s !in names
    ensures FindFile(d, s).Some? ==> FindFile(d, s).value < |names| && names[FindFile(d, s).value] == s
  {
    hide PtrInv, StrnEq;
    var blk := d[DATA_AT];
    forall j | 0 <= j < ENTRIES
      ensures StrnEq(NameOf(blk, j), s, NAME_SIZE) <==> j < |names| && names[j] == s
    {
      if j < |names| {
        assert EntryIs(blk, j, names[j]) && LegalName(names[j]);
        PaddedFound(names[j], s);
      } else {
        EmptyNotFound(blk, j, s);
      }
    }
    var e := FindEntry(blk, s, 0);
    if e < ENTRIES { assert EntryIs(blk, e, names[e]); }
  }

  /** The search for any C string.  The empty one is found at the first unused entry, which holds the number
      of the directory; one of 12 or more characters is not found. */
  lemma FindFileAny(d: Disk, names: seq<seq<byte>>, s: seq<byte>)
    requires Dir(d, names) && NoNul(s)
    ensures FindFile(d, s).Some? ==> FindFile(d, s).value < |names| <= ENTRIES
    ensures LegalName(s) ==>
      if s in names then FindFile(d, s).Some? && names[FindFile(d, s).value] == s else FindFile(d, s).None?
    ensures s == [] ==> FindFile(d, s) == if |names| < ENTRIES then Some(0) else None
    ensures |s| >= NAME_SIZE ==> FindFile(d, s) == None
  {
    hide PtrInv, StrnEq;
    var blk := d[DATA_AT];
    var e := FindEntry(blk, s, 0);
    if LegalName(s) {
      FindFileExact(d, names, s);
    } else if s == [] {
      EmptyName(d, names, e);
    } else if e < ENTRIES {
      LastByte(d, names, e);
      LongNeverEqual(NameOf(blk, e), s, NAME_SIZE);
    }
  }

  /** The last byte of every name in the directory is 0. */
  lemma LastByte(d: Disk, names: seq<seq<byte>>, j: nat)
    requires Dir(d, names) && j < ENTRIES
    ensures NameOf(d[DATA_AT], j)[NAME_SIZE - 1] == 0
  {
    hide PtrInv;
    if j < |names| {
      assert EntryIs(d[DATA_AT], j, names[j]);
    } else {
      assert EntryEmpty(d[DATA_AT], j);
      assert d[DATA_AT][ENTRY_SIZE * j..ENTRY_SIZE * (j + 1)][NAME_SIZE - 1] == 0;
    }
  }

  lemma EmptyName(d: Disk, names: seq<seq<byte>>, e: nat)
    requires Dir(d, names) && e == FindEntry(d[DATA_AT], [], 0)
    ensures e == |names| && (e < ENTRIES ==> NumberOf(d[DATA_AT], e) == 0)
  {
    hide PtrInv, StrnEq, NumberOf, FindEntry;
    if e < |names| {
      FirstByte(d, names, e);
      StrnEqEmpty(NameOf(d[DATA_AT], e));
    } else if |names| < ENTRIES {
      FirstByte(d, names, |names|);
      StrnEqEmpty(NameOf(d[DATA_AT], |names|));
      UnusedNumber(d[DATA_AT], |names|);
    }
  }

  lemma StrnEqEmpty(r: seq<byte>)
    requires |r| == NAME_SIZE
    ensures StrnEq(r, [], NAME_SIZE) <==> r[0] == 0
  {
  }

  lemma UnusedNumber(blk: Block, j: nat)
    requires |blk| == BLOCK_SIZE && j < ENTRIES && EntryEmpty(blk, j)
    ensures NumberOf(blk, j) == 0
  {
    var z := blk[ENTRY_SIZE * j..ENTRY_SIZE * (j + 1)];
    assert forall i :: NAME_SIZE <= i < ENTRY_SIZE ==> z[i] == blk[ENTRY_SIZE * j + i];
  }

  lemma FirstByte(d: Disk, names: seq<seq<byte>>, j: nat)
    requires Dir(d, names) && j < ENTRIES
    ensures NameOf(d[DATA_AT], j)[0] == 0 <==> j >= |names|
  {
    hide PtrInv;
    if j < |names| {
      assert EntryIs(d[DATA_AT], j, names[j]) && LegalName(names[j]);
    } else {
      assert EntryEmpty(d[DATA_AT], j);
      assert d[DATA_AT][ENTRY_SIZE * j..ENTRY_SIZE * (j + 1)][0] == 0;
    }
  }

  // ---------------------------------------------------------------- a new file

  /** The direct case of get_logical_block. */
  function LogicalBlock(d: Disk, ino: Inode, k: nat): nat
    requires Formatted(d) && k < DIRECT
  {
    DataOffset(d) + Ptr(ino, k)
  }

  /** The directory block with one more entry at byte `off`. */
  function WithEntry(blk: Block, off: nat, s: seq<byte>, n: nat): (r: Block)
    requires |blk| == BLOCK_SIZE && off + ENTRY_SIZE <= BLOCK_SIZE
    ensures |r| == BLOCK_SIZE
  {
    PutU32(blk[..off] + StrnCpy(s, NAME_SIZE - 1) + blk[off + NAME_SIZE - 1..], off + NAME_SIZE, n)
  }

  /** add_file.  The directory still has room: inodes run out before its block does. */
  function AddFile(d: Disk, s: seq<byte>, n: nat): Disk
    requires Formatted(d) && Size(GetInode(d, 0)) + ENTRY_SIZE <= BLOCK_SIZE
    requires LogicalBlock(d, GetInode(d, 0), 0) == DATA_AT
  {
    var root := GetInode(d, 0);
    SetInode(d[DATA_AT := WithEntry(d[DATA_AT], Size(root), s, n)], 0, WithSize(root, Size(root) + ENTRY_SIZE))
  }

  /** The first inode from `n` on without references; 64 when there is none. */
  function FreeInode(d: Disk, n: nat): (r: nat)
    requires Formatted(d) && n <= INODES
    ensures n <= r <= INODES
    ensures r < INODES ==> Refs(GetInode(d, r)) == 0
    ensures forall m :: n <= m < r ==> Refs(GetInode(d, m)) != 0
    decreases INODES - n
  {
    if n == INODES || Refs(GetInode(d, n)) == 0 then n else FreeInode(d, n + 1)
  }

  lemma FreeInodeIs(d: Disk, names: seq<seq<byte>>)
    requires Dir(d, names)
    ensures FreeInode(d, 0) == |names|
  {
    hide PtrInv;
    var r := FreeInode(d, 0);
    assert r < INODES ==> InodeIs(d, r, |names|);
    assert |names| < INODES ==> InodeIs(d, |names|, |names|);
  }

  lemma RootPlace(d: Disk, names: seq<seq<byte>>)
    requires Dir(d, names)
    ensures LogicalBlock(d, GetInode(d, 0), 0) == LogicalBlock(d, GetInode(d, 0), 1) == DATA_AT
    ensures Size(GetInode(d, 0)) == ENTRY_SIZE * |names|
  {
    assert Ref(d, 0, 0) == 0 && Ref(d, 0, 1) == 0;
  }

  /** new_file: a file of that name is truncated; otherwise the first free inode becomes the file. */
  function NewFile(d: Disk, names: seq<seq<byte>>, s: seq<byte>): (Disk, bool)
    requires Dir(d, names) && NoNul(s)
  {
    FindFileAny(d, names, s);
    match FindFile(d, s)
    case Some(i) => (SetInode(d, i, WithSize(GetInode(d, i), 0)), true)
    case None =>
      FreeInodeIs(d, names);
      var i := FreeInode(d, 0);
      if i == INODES then (d, false)
      else
        RootPlace(d, names);
        AddFileFormatted(d, s, i);
        (SetInode(AddFile(d, s, i), i, WithRefs(GetInode(d, i), 1)), true)
  }

  lemma AddFileFormatted(d: Disk, s: seq<byte>, n: nat)
    requires Formatted(d) && Size(GetInode(d, 0)) + ENTRY_SIZE <= BLOCK_SIZE
    requires LogicalBlock(d, GetInode(d, 0), 0) == DATA_AT
    ensures Formatted(AddFile(d, s, n)) && |AddFile(d, s, n)| == |d|
  {
    var d1 := d[DATA_AT := WithEntry(d[DATA_AT], Size(GetInode(d, 0)), s, n)];
    assert Formatted(d1);
    GetSet(d1, 0, WithSize(GetInode(d, 0), Size(GetInode(d, 0)) + ENTRY_SIZE));
  }

  /** A new entry is the next one, and the others are as they were. */
  lemma EntryAdded(blk: Block, k: nat, s: seq<byte>)
    requires |blk| == BLOCK_SIZE && k < ENTRIES && EntryEmpty(blk, k) && LegalName(s)
    ensures var b := WithEntry(blk, ENTRY_SIZE * k, s, k);
      && EntryIs(b, k, s)
      && forall j :: 0 <= j < ENTRIES && j != k ==>
           b[ENTRY_SIZE * j..ENTRY_SIZE * (j + 1)] == blk[ENTRY_SIZE * j..ENTRY_SIZE * (j + 1)]
  {
    var off := ENTRY_SIZE * k;
    var c := blk[..off] + StrnCpy(s, NAME_SIZE - 1) + blk[off + NAME_SIZE - 1..];
    var b := WithEntry(blk, off, s, k);
    PutGet(c, off + NAME_SIZE, k);
    assert c[off + NAME_SIZE - 1] == 0 by { assert blk[off..off + ENTRY_SIZE][NAME_SIZE - 1] == 0; }
    assert b[off..off + NAME_SIZE] == Padded(s);
    forall j | 0 <= j < ENTRIES && j != k
      ensures b[ENTRY_SIZE * j..ENTRY_SIZE * (j + 1)] == blk[ENTRY_SIZE * j..ENTRY_SIZE * (j + 1)]
    {
      forall i | ENTRY_SIZE * j <= i < ENTRY_SIZE * (j + 1) ensures b[i] == blk[i] {
        assert i < off || i >= off + ENTRY_SIZE;
        assert c[i] == blk[i];
      }
    }
  }

  lemma SameEntry(b: Block, blk: Block, j: nat)
    requires |b| == |blk| == BLOCK_SIZE && j < ENTRIES
    requires b[ENTRY_SIZE * j..ENTRY_SIZE * (j + 1)] == blk[ENTRY_SIZE * j..ENTRY_SIZE * (j + 1)]
    ensures NameOf(b, j) == NameOf(blk, j) && NumberOf(b, j) == NumberOf(blk, j)
    ensures EntryEmpty(b, j) <==> EntryEmpty(blk, j)
  {
    var e, f := b[ENTRY_SIZE * j..ENTRY_SIZE * (j + 1)], blk[ENTRY_SIZE * j..ENTRY_SIZE * (j + 1)];
    assert NameOf(b, j) == e[..NAME_SIZE] && NameOf(blk, j) == f[..NAME_SIZE];
    assert forall i :: 0 <= i < ENTRY_SIZE ==> e[i] == b[ENTRY_SIZE * j + i] && f[i] == blk[ENTRY_SIZE * j + i];
  }

  /** A new inode with the same pointers keeps all pointers of the disk. */
  lemma SamePtrsKeep(d: Disk, n: nat, ino: Inode)
    requires PtrInv(d) && n < INODES && SamePtrs(ino, GetInode(d, n))
    ensures Formatted(SetInode(d, n, ino)) && PtrInv(SetInode(d, n, ino))
    ensures forall m, s :: 0 <= m < INODES && 0 <= s < SLOTS ==> Ref(SetInode(d, n, ino), m, s) == Ref(d, m, s)
  {
    hide GetInode, SetInode, Used, RefOf;
    var d' := SetInode(d, n, ino);
    GetSet(d, n, ino);
    SetKeepsRefs(d, n, ino);
    forall s | 0 <= s < SLOTS ensures Ref(d', n, s) == Ref(d, n, s) { SamePtrsSameRef(d, ino, GetInode(d, n), s); }
    forall m, s | 0 <= m < INODES && 0 <= s < SLOTS ensures RefOk(d', m, s) { assert RefOk(d, m, s); }
    forall m, s | Pointer(d', m, s) ensures Pointer(d, m, s) {}
  }

  lemma SamePtrsSameRef(d: Disk, i: Inode, j: Inode, s: nat)
    requires Formatted(d) && SamePtrs(i, j) && s < SLOTS
    ensures RefOf(d, i, s) == RefOf(d, j, s)
  {
  }

  /** Writing the directory block changes no pointer. */
  lemma RootWriteKeeps(d: Disk, blk: Block)
    requires PtrInv(d) && |blk| == BLOCK_SIZE
    ensures Formatted(d[DATA_AT := blk]) && PtrInv(d[DATA_AT := blk])
    ensures forall m, s :: 0 <= m < INODES && 0 <= s < SLOTS ==> Ref(d[DATA_AT := blk], m, s) == Ref(d, m, s)
    ensures forall m :: 0 <= m < INODES ==> GetInode(d[DATA_AT := blk], m) == GetInode(d, m)
  {
    hide Used;
    var d' := d[DATA_AT := blk];
    assert Formatted(d') && DataCount(d') == DataCount(d) && d'[0] == d[0];
    forall m | 0 <= m < INODES ensures GetInode(d', m) == GetInode(d, m) {
      assert d'[InodeBlock(m)] == d[InodeBlock(m)];
    }
    forall b | 0 <= b < MAX_DATA ensures Used(d', b) == Used(d, b) { UsedInBlock0(d, d', b); }
    forall m, s | 0 <= m < INODES && 0 <= s < SLOTS ensures Ref(d', m, s) == Ref(d, m, s) {
      assert GetInode(d', m) == GetInode(d, m);
    }
    forall m, s | 0 <= m < INODES && 0 <= s < SLOTS ensures RefOk(d', m, s) { assert RefOk(d, m, s); }
    forall m, s | Pointer(d', m, s) ensures Pointer(d, m, s) {}
  }

  lemma UsedInBlock0(d: Disk, d': Disk, b: nat)
    requires |d| > 0 && |d'| > 0 && d[0] == d'[0] && |d[0]| == BLOCK_SIZE && b < MAX_DATA
    ensures Used(d, b) == Used(d', b)
  {
  }

  // ---------------------------------------------------------------- what new_file does

  /** The files other than `n` are as they were, and so are all pointers and all data blocks. */
  ghost predicate OnlyInode(d: Disk, d': Disk, n: nat)
  {
    && Formatted(d) && Formatted(d') && |d'| == |d|
    && (forall m, s :: 0 <= m < INODES && 0 <= s < SLOTS ==> Ref(d', m, s) == Ref(d, m, s))
    && (forall m :: 0 < m < INODES && m != n ==> GetInode(d', m) == GetInode(d, m))
    && (forall i :: DATA_AT < i < |d| ==> d'[i] == d[i])
  }

  /** A file that exists is truncated; its pointers stay, so its blocks stay taken. */
  lemma TruncateEffect(d: Disk, names: seq<seq<byte>>, k: nat)
    requires Dir(d, names) && 0 < k < |names|
    ensures var (d', ok) := NewFile(d, names, names[k]);
      ok && Dir(d', names) && OnlyInode(d, d', k) && Size(GetInode(d', k)) == 0
  {
    hide Ref, SetInode;
    FindFileExact(d, names, names[k]);
    var ino := GetInode(d, k);
    var d' := SetInode(d, k, WithSize(ino, 0));
    assert NewFile(d, names, names[k]) == (d', true);
    Fields(ino, 0, 0);
    SamePtrsKeep(d, k, WithSize(ino, 0));
    GetSet(d, k, WithSize(ino, 0));
    forall n | 0 <= n < INODES ensures InodeIs(d', n, |names|) {
      assert InodeIs(d, n, |names|);
    }
  }

  /** A blank inode has no pointers. */
  lemma BlankInode(d: Disk, n: nat)
    requires Formatted(d) && n < INODES && GetInode(d, n) == Zeros(INODE_LEN)
    ensures Size(GetInode(d, n)) == 0 && forall s :: 0 <= s < SLOTS ==> Ref(d, n, s) == 0
  {
  }

  /** A new name takes the next inode, which has no pointers, and is added to the directory. */
  lemma CreateEffect(d: Disk, names: seq<seq<byte>>, s: seq<byte>)
    requires Dir(d, names) && LegalName(s) && s !in names && |names| < ENTRIES
    ensures var (d', ok) := NewFile(d, names, s); var k := |names|;
      && ok && Dir(d', names + [s]) && OnlyInode(d, d', k) && Size(GetInode(d', k)) == 0
      && forall t :: 0 <= t < SLOTS ==> Ref(d', k, t) == 0
  {
    hide Ref, SetInode, PtrInv, WithEntry, StrnEq, AddFile, FindFile, GetInode, SamePtrs;
    var k := |names|;
    NewFileAdds(d, names, s);
    AddFileEffect(d, names, s);
    assert InodeIs(d, k, k) && InodeIs(d, 0, k);
    BlankInode(d, k);
    var d2, ino := AddFile(d, s, k), GetInode(d, k);
    Fields(ino, 0, 1);
    SamePtrsKeep(d2, k, WithRefs(ino, 1));
    GetSet(d2, k, WithRefs(ino, 1));
    DirGrows(d, SetInode(d2, k, WithRefs(ino, 1)), names, s);
  }

  /** What new_file does for a new name: the entry, then the inode. */
  lemma NewFileAdds(d: Disk, names: seq<seq<byte>>, s: seq<byte>)
    requires Dir(d, names) && LegalName(s) && s !in names && |names| < ENTRIES
    ensures Size(GetInode(d, 0)) + ENTRY_SIZE <= BLOCK_SIZE && LogicalBlock(d, GetInode(d, 0), 0) == DATA_AT
    ensures Formatted(AddFile(d, s, |names|)) && |AddFile(d, s, |names|)| == |d|
    ensures NewFile(d, names, s) == (SetInode(AddFile(d, s, |names|), |names|, WithRefs(GetInode(d, |names|), 1)), true)
  {
    hide PtrInv, AddFile, SetInode, Ref;
    FindFileExact(d, names, s);
    FreeInodeIs(d, names);
    RootPlace(d, names);
    AddFileFormatted(d, s, |names|);
  }

  lemma AddFileEffect(d: Disk, names: seq<seq<byte>>, s: seq<byte>)
    requires Dir(d, names) && LegalName(s) && |names| < ENTRIES
    requires Size(GetInode(d, 0)) + ENTRY_SIZE <= BLOCK_SIZE && LogicalBlock(d, GetInode(d, 0), 0) == DATA_AT
    ensures var d2 := AddFile(d, s, |names|);
      && Formatted(d2) && PtrInv(d2) && |d2| == |d|
      && d2[DATA_AT] == WithEntry(d[DATA_AT], ENTRY_SIZE * |names|, s, |names|)
      && (forall m, t :: 0 <= m < INODES && 0 <= t < SLOTS ==> Ref(d2, m, t) == Ref(d, m, t))
      && Size(GetInode(d2, 0)) == ENTRY_SIZE * (|names| + 1) && Refs(GetInode(d2, 0)) == Refs(GetInode(d, 0))
      && (forall m :: 0 < m < INODES ==> GetInode(d2, m) == GetInode(d, m))
      && (forall i :: DATA_AT < i < |d| ==> d2[i] == d[i])
  {
    hide Ref, SetInode, PtrInv, WithEntry, GetInode, SamePtrs;
    var root := GetInode(d, 0);
    var blk := WithEntry(d[DATA_AT], Size(root), s, |names|);
    var d1 := d[DATA_AT := blk];
    RootWriteKeeps(d, blk);
    var root' := WithSize(root, Size(root) + ENTRY_SIZE);
    Fields(root, 0, Size(root) + ENTRY_SIZE);
    SamePtrsKeep(d1, 0, root');
    GetSet(d1, 0, root');
  }

  lemma DirGrows(d: Disk, d': Disk, names: seq<seq<byte>>, s: seq<byte>)
    requires Dir(d, names) && LegalName(s) && s !in names && |names| < ENTRIES && Formatted(d') && PtrInv(d')
    requires d'[DATA_AT] == WithEntry(d[DATA_AT], ENTRY_SIZE * |names|, s, |names|)
    requires Size(GetInode(d', 0)) == ENTRY_SIZE * (|names| + 1) && Refs(GetInode(d', 0)) == Refs(GetInode(d, 0))
    requires Refs(GetInode(d', |names|)) == 1
    requires forall t :: 0 <= t < SLOTS ==> Ref(d', 0, t) == Ref(d, 0, t)
    requires forall m :: 0 < m < INODES && m != |names| ==> GetInode(d', m) == GetInode(d, m)
    ensures Dir(d', names + [s])
  {
    hide Ref, PtrInv, WithEntry;
    var k, names' := |names|, names + [s];
    var blk, b := d[DATA_AT], d'[DATA_AT];
    EntryAdded(blk, k, s);
    forall j | 0 <= j < |names'| ensures EntryIs(b, j, names'[j]) && LegalName(names'[j]) {
      if j < k {
        assert EntryIs(blk, j, names[j]) && LegalName(names[j]);
        SameEntry(b, blk, j);
      }
    }
    forall j | |names'| <= j < ENTRIES ensures EntryEmpty(b, j) {
      assert EntryEmpty(blk, j);
      SameEntry(b, blk, j);
    }
    forall n | 0 <= n < INODES ensures InodeIs(d', n, |names'|) {
      assert InodeIs(d, n, k);
    }
  }

  /** With every inode taken no file is added, and nothing changes. */
  lemma FullEffect(d: Disk, names: seq<seq<byte>>, s: seq<byte>)
    requires Dir(d, names) && NoNul(s) && s !in names && |names| == ENTRIES
    ensures NewFile(d, names, s) == (d, false)
  {
    FindFileAny(d, names, s);
    FreeInodeIs(d, names);
  }

  // ---------------------------------------------------------------- every name

  /** What a directory entry keeps of a name. */
  function Cut(s: seq<byte>): seq<byte> { if |s| < NAME_SIZE then s else s[..NAME_SIZE - 1] }

  /** Exactly the names that leave the directory in order: not ".", not the empty name while there is an
      unused entry to be taken for it, and no long name whose beginning is that of a file already. */
  predicate Sparing(names: seq<seq<byte>>, s: seq<byte>)
  {
    && s != [DOT]
    && (s == [] ==> |names| == ENTRIES)
    && (|s| >= NAME_SIZE && |names| < ENTRIES ==> Cut(s) !in names)
  }

  /** A directory whose inode has no size is none. */
  lemma EmptyRoot(d: Disk)
    requires Formatted(d)
    ensures var d' := SetInode(d, 0, WithSize(GetInode(d, 0), 0)); forall names' :: !Dir(d', names')
  {
    hide PtrInv, SetInode;
    Fields(GetInode(d, 0), 0, 0);
    GetSet(d, 0, WithSize(GetInode(d, 0), 0));
  }

  lemma PaddedSame(s: seq<byte>, t: seq<byte>)
    requires LegalName(s) && LegalName(t) && Padded(s) == Padded(t)
    ensures s == t
  {
    PaddedFound(s, s);
    PaddedFound(t, s);
  }

  /** A directory with the same name in two entries is none. */
  lemma TwiceListed(d: Disk, j: nat, k: nat, t: seq<byte>)
    requires Formatted(d) && j < k < ENTRIES && LegalName(t) && Size(GetInode(d, 0)) == ENTRY_SIZE * (k + 1)
    requires EntryIs(d[DATA_AT], j, t) && EntryIs(d[DATA_AT], k, t)
    ensures forall names' :: !Dir(d, names')
  {
    hide PtrInv, Padded;
    forall names' | Dir(d, names') ensures false {
      assert EntryIs(d[DATA_AT], j, names'[j]) && EntryIs(d[DATA_AT], k, names'[k]);
      assert LegalName(names'[j]) && LegalName(names'[k]);
      PaddedSame(names'[j], t);
      PaddedSame(names'[k], t);
    }
  }

  /** A long name goes into the directory as what is kept of it. */
  lemma LongAdds(d: Disk, names: seq<seq<byte>>, s: seq<byte>)
    requires Dir(d, names) && NoNul(s) && |s| >= NAME_SIZE && |names| < ENTRIES
    ensures LegalName(Cut(s))
    ensures Size(GetInode(d, 0)) + ENTRY_SIZE <= BLOCK_SIZE && LogicalBlock(d, GetInode(d, 0), 0) == DATA_AT
    ensures Formatted(AddFile(d, Cut(s), |names|)) && |AddFile(d, Cut(s), |names|)| == |d|
    ensures NewFile(d, names, s)
         == (SetInode(AddFile(d, Cut(s), |names|), |names|, WithRefs(GetInode(d, |names|), 1)), true)
  {
    hide PtrInv, SetInode, Ref;
    FindFileAny(d, names, s);
    FreeInodeIs(d, names);
    RootPlace(d, names);
    AddFileFormatted(d, Cut(s), |names|);
    assert StrnCpy(s, NAME_SIZE - 1) == StrnCpy(Cut(s), NAME_SIZE - 1);
    assert AddFile(d, s, |names|) == AddFile(d, Cut(s), |names|);
  }

  /** A long name whose beginning is that of a file makes a second entry of that name. */
  lemma LongTwice(d: Disk, names: seq<seq<byte>>, s: seq<byte>)
    requires Dir(d, names) && NoNul(s) && |s| >= NAME_SIZE && |names| < ENTRIES && Cut(s) in names
    ensures forall names' :: !Dir(NewFile(d, names, s).0, names')
  {
    hide PtrInv, SetInode, Ref, AddFile, NewFile, GetInode, WithEntry;
    var k, t := |names|, Cut(s);
    LongAdds(d, names, s);
    AddFileEffect(d, names, t);
    var d2, ino := AddFile(d, t, k), WithRefs(GetInode(d, k), 1);
    GetSet(d2, k, ino);
    var j: nat :| j < k && names[j] == t;
    assert EntryEmpty(d[DATA_AT], k) && EntryIs(d[DATA_AT], j, t);
    EntryAdded(d[DATA_AT], k, t);
    SameEntry(d2[DATA_AT], d[DATA_AT], j);
    TwiceListed(SetInode(d2, k, ino), j, k, t);
  }

  /** new_file for every name: the directory stays in order exactly for the names above. */
  lemma NewFileKeepsDir(d: Disk, names: seq<seq<byte>>, s: seq<byte>)
    requires Dir(d, names) && NoNul(s)
    ensures (exists names' :: Dir(NewFile(d, names, s).0, names')) <==> Sparing(names, s)
  {
    hide PtrInv, SetInode, Dir, NewFile, FindFile;
    DirFormatted(d, names);
    FindFileAny(d, names, s);
    if FindFile(d, s).Some? { NewFileTruncates(d, names, s); }
    var d' := NewFile(d, names, s).0;
    if s == [DOT] || (s == [] && |names| < ENTRIES) {
      EmptyRoot(d);
    } else if s in names {
      TruncateEffect(d, names, FindFile(d, s).value);
      assert Dir(d', names);
    } else if |names| == ENTRIES {
      FullEffect(d, names, s);
      assert Dir(d', names);
    } else if |s| < NAME_SIZE {
      CreateEffect(d, names, s);
      assert Dir(d', names + [s]);
    } else if Cut(s) in names {
      LongTwice(d, names, s);
    } else {
      LongAdds(d, names, s);
      NewFileAdds(d, names, Cut(s));
      CreateEffect(d, names, Cut(s));
      assert Dir(d', names + [Cut(s)]);
    }
  }

  lemma DirFormatted(d: Disk, names: seq<seq<byte>>)
    requires Dir(d, names)
    ensures Formatted(d) && 0 < |names| <= ENTRIES && names[0] == [DOT] && NoDup(names)
    ensures forall k :: 0 <= k < |names| ==> LegalName(names[k])
  {
    hide PtrInv;
  }

  lemma NewFileTruncates(d: Disk, names: seq<seq<byte>>, s: seq<byte>)
    requires Dir(d, names) && NoNul(s) && FindFile(d, s).Some?
    ensures FindFile(d, s).value < INODES
    ensures NewFile(d, names, s)
         == (SetInode(d, FindFile(d, s).value, WithSize(GetInode(d, FindFile(d, s).value), 0)), true)
  {
    hide PtrInv, FindFile, SetInode;
    FindFileAny(d, names, s);
    DirFormatted(d, names);
  }
}
