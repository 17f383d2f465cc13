/** How the boot loader looks for the kernel in the root directory (boot/boot2.S, find_kernel): the register
    that it compares with is also the one that it counts entries with. */
module BootFind {
  import opened Wrappers
  import opened SeqLemmas
  import opened Bytes
  import opened EfsLayout
  import opened EfsAlloc
  import opened EfsDir

  // ---------------------------------------------------------------- the search

  /** The strcmp of the loader: how many characters of the C string `t` are equal, and whether all are. */
  function Matching(mem: seq<byte>, t: seq<byte>): (n: nat)
    ensures n <= |mem| && n <= |t| + 1
    decreases |mem|
  {
    var c := if t == [] then 0 else t[0];
    if mem == [] || mem[0] != c then 0
    else if c == 0 then 1
    else 1 + Matching(mem[1..], t[1..])
  }

  /** Found at the byte `at` of the block; given up; or an answer that depends on bytes behind the block. */
  datatype Search = Found(number: nat, at: nat) | NotFound | Lost

  /** The inode number that goes with the name at the byte `at`. */
  function FoundAt(blk: Block, at: nat): Search
    requires |blk| == BLOCK_SIZE
  {
    if at + NAME_SIZE + 2 <= BLOCK_SIZE then Found(U16At(blk, at + NAME_SIZE), at) else Lost
  }

  /** search_block.  strcmp moves the index register over every character that agrees, and the loop adds
      the size of an entry to wherever that leaves it.  At the end of the block the register that should
      hold the number of the block holds that of a sector, so there is no next block to the loop. */
  function FindFrom(blk: Block, size: nat, t: seq<byte>, si: nat, searched: nat): Search
    requires |blk| == BLOCK_SIZE && NoNul(t)
    decreases BLOCK_SIZE - si
  {
    if si == BLOCK_SIZE then NotFound
    else if si > BLOCK_SIZE then Lost
    else
      var m := Matching(blk[si..], t);
      if m == |t| + 1 then FoundAt(blk, si)
      else if si + m == BLOCK_SIZE then Lost
      else if searched + ENTRY_SIZE == size then NotFound
      else FindFrom(blk, size, t, si + m + ENTRY_SIZE, searched + ENTRY_SIZE)
  }

  /** How one comparison decides the search. */
  lemma SearchStep(blk: Block, size: nat, t: seq<byte>, si: nat, searched: nat)
    requires |blk| == BLOCK_SIZE && NoNul(t)
    ensures si == BLOCK_SIZE ==> FindFrom(blk, size, t, si, searched) == NotFound
    ensures si > BLOCK_SIZE ==> FindFrom(blk, size, t, si, searched) == Lost
    ensures si < BLOCK_SIZE ==>
      var m := Matching(blk[si..], t);
      FindFrom(blk, size, t, si, searched) ==
        if m == |t| + 1 then FoundAt(blk, si)
        else if si + m == BLOCK_SIZE then Lost
        else if searched + ENTRY_SIZE == size then NotFound
        else FindFrom(blk, size, t, si + m + ENTRY_SIZE, searched + ENTRY_SIZE)
  {
    hide Matching, FoundAt;
  }

  function FindKernel(d: Disk, t: seq<byte>): Search
    requires Shaped(d) && NoNul(t)
  {
    FindFrom(d[DATA_AT], U16At(GetInode(d, 0), 0), t, 0, 0)
  }

  // ---------------------------------------------------------------- the search in terms of names

  /** What is left of a name from its o-th character on. */
  function Suffix(s: seq<byte>, o: nat): seq<byte> { if o <= |s| then s[o..] else [] }

  /** How many characters two names have in common at their beginning. */
  function Common(s: seq<byte>, t: seq<byte>): (n: nat)
    ensures n <= |s| && n <= |t|
    ensures n > 0 <==> s != [] && t != [] && s[0] == t[0]
  {
    if s == [] || t == [] || s[0] != t[0] then 0 else 1 + Common(s[1..], t[1..])
  }

  /** Entry `j`, from the o-th character of its name on; or no entry. */
  datatype Hit = At(j: nat, o: nat) | Nowhere

  /** The search from entry `j` on, off by `o` characters: whatever an entry has in common with the name is
      added to that for all entries behind it. */
  function Walk(names: seq<seq<byte>>, t: seq<byte>, j: nat, o: nat): (r: Hit)
    requires j <= |names|
    ensures r.At? ==> j <= r.j < |names| && o <= r.o && Suffix(names[r.j], r.o) == t
    ensures r == At(j, o) || r == Nowhere || r.j > j
    decreases |names| - j
  {
    if j == |names| then Nowhere
    else if Suffix(names[j], o) == t then At(j, o)
    else Walk(names, t, j + 1, o + Common(Suffix(names[j], o), t))
  }

  lemma WalkStep(names: seq<seq<byte>>, t: seq<byte>, j: nat, o: nat)
    requires j < |names|
    ensures Walk(names, t, j, o) ==
      if Suffix(names[j], o) == t then At(j, o) else Walk(names, t, j + 1, o + Common(Suffix(names[j], o), t))
    ensures Walk(names, t, |names|, o) == Nowhere
  {
  }

  /** The answer of the loader at that place. */
  function Answer(blk: Block, w: Hit): Search
    requires |blk| == BLOCK_SIZE
  {
    match w
    case At(j, o) => FoundAt(blk, ENTRY_SIZE * j + o)
    case Nowhere => NotFound
  }

  lemma {:induction false} MatchingPadded(mem: seq<byte>, s: seq<byte>, t: seq<byte>)
    requires NoNul(s) && NoNul(t) && |mem| > |s| && mem[..|s|] == s && mem[|s|] == 0
    ensures Matching(mem, t) == if s == t then |t| + 1 else Common(s, t)
    decreases |s|
  {
    if s != [] && t != [] && s[0] == t[0] {
      assert mem[0] == s[0] && mem[1..][..|s[1..]|] == s[1..];
      MatchingPadded(mem[1..], s[1..], t[1..]);
      assert s == [s[0]] + s[1..] && t == [t[0]] + t[1..];
    } else if s != [] {
      assert mem[0] == s[0];
    }
  }

  lemma DirNames(d: Disk, names: seq<seq<byte>>)
    requires Dir(d, names)
    ensures |names| <= ENTRIES && Formatted(d) && Size(GetInode(d, 0)) == ENTRY_SIZE * |names|
    ensures NoDup(names) && names != [] && names[0] == [DOT]
    ensures forall j :: 0 <= j < |names| ==> LegalName(names[j])
  {
    hide PtrInv;
  }

  /** A comparison off by `o` sees the rest of the entry's name, and ends at or before the byte behind the
      name, so the search stays off by less than the size of a name. */
  lemma EntryMatching(d: Disk, names: seq<seq<byte>>, t: seq<byte>, j: nat, o: nat)
    requires Dir(d, names) && LegalName(t) && j < |names| <= ENTRIES && o < NAME_SIZE
    ensures var s := Suffix(names[j], o); var m := Matching(d[DATA_AT][ENTRY_SIZE * j + o..], t);
      && m == (if s == t then |t| + 1 else Common(s, t))
      && (s != t ==> o + m < NAME_SIZE)
    ensures U16At(d[DATA_AT], ENTRY_SIZE * j + NAME_SIZE) == j
  {
    hide PtrInv, Ref, GetInode, Matching, Padded, U16At, U32At;
    var blk, n := d[DATA_AT], names[j];
    assert EntryIs(blk, j, n) && LegalName(n);
    RestOfEntry(blk, n, j, o);
    MatchingPadded(blk[ENTRY_SIZE * j + o..], Suffix(n, o), t);
    LowHalf(blk, ENTRY_SIZE * j + NAME_SIZE);
  }

  lemma RestOfEntry(blk: Block, n: seq<byte>, j: nat, o: nat)
    requires |blk| == BLOCK_SIZE && j < ENTRIES && o < NAME_SIZE && LegalName(n) && NameOf(blk, j) == Padded(n)
    ensures var s := Suffix(n, o); var mem := blk[ENTRY_SIZE * j + o..];
      NoNul(s) && |mem| > |s| && mem[..|s|] == s && mem[|s|] == 0
  {
    var s, mem := Suffix(n, o), blk[ENTRY_SIZE * j + o..];
    forall i | 0 <= i < NAME_SIZE - o ensures mem[i] == Padded(n)[o + i] {
      assert NameOf(blk, j)[o + i] == blk[ENTRY_SIZE * j + (o + i)];
    }
  }

  /** The loader's search, on every directory and for every name, is the walk over its names. */
  lemma {:induction false} FindFromIs(d: Disk, names: seq<seq<byte>>, t: seq<byte>, j: nat, o: nat)
    requires Dir(d, names) && LegalName(t) && j < |names| <= ENTRIES && o < NAME_SIZE
    ensures FindFrom(d[DATA_AT], ENTRY_SIZE * |names|, t, ENTRY_SIZE * j + o, ENTRY_SIZE * j)
         == Answer(d[DATA_AT], Walk(names, t, j, o))
    decreases |names| - j
  {
    hide Dir, FindFrom, Matching, FoundAt, Common, Suffix, Walk, GetInode;
    DirNames(d, names);
    EntryMatching(d, names, t, j, o);
    WalkStep(names, t, j, o);
    SearchStep(d[DATA_AT], ENTRY_SIZE * |names|, t, ENTRY_SIZE * j + o, ENTRY_SIZE * j);
    if Suffix(names[j], o) != t && j + 1 < |names| {
      FindFromIs(d, names, t, j + 1, o + Common(Suffix(names[j], o), t));
    }
  }

  lemma FindKernelIs(d: Disk, names: seq<seq<byte>>, t: seq<byte>)
    requires Dir(d, names) && LegalName(t)
    ensures FindKernel(d, t) == Answer(d[DATA_AT], Walk(names, t, 0, 0))
  {
    hide Dir, FindFrom;
    DirNames(d, names);
    LowHalf(GetInode(d, 0), 0);
    FindFromIs(d, names, t, 0, 0);
  }

  // ---------------------------------------------------------------- what is found

  /** No entry before the k-th begins as `t` does. */
  predicate NoneBefore(names: seq<seq<byte>>, t: seq<byte>, k: nat)
    requires k <= |names|
  {
    forall j :: 0 <= j < k ==> Common(names[j], t) == 0
  }

  /** As long as no entry begins as the name does, the walk goes from entry to entry. */
  lemma {:induction false} WalkReaches(names: seq<seq<byte>>, t: seq<byte>, j: nat, k: nat)
    requires j <= k <= |names| && t != [] && forall i :: j <= i < k ==> Common(names[i], t) == 0
    ensures Walk(names, t, j, 0) == Walk(names, t, k, 0)
    decreases k - j
  {
    if j < k { WalkReaches(names, t, j + 1, k); }
  }

  /** From the first entry that begins as the name does, but is another, the walk never comes back to the
      beginning of an entry. */
  lemma WalkDrifts(names: seq<seq<byte>>, t: seq<byte>, k: nat)
    requires k < |names| && t != [] && NoneBefore(names, t, k) && Common(names[k], t) > 0 && names[k] != t
    ensures Walk(names, t, 0, 0).At? ==> Walk(names, t, 0, 0).o > 0
  {
    WalkReaches(names, t, 0, k);
  }

  /** The first entry before the k-th that begins as `t` does. */
  lemma FirstSharing(names: seq<seq<byte>>, t: seq<byte>, k: nat) returns (i: nat)
    requires k <= |names| && !NoneBefore(names, t, k)
    ensures i < k && NoneBefore(names, t, i) && Common(names[i], t) > 0
  {
    i := 0;
    while Common(names[i], t) == 0
      invariant i < k && NoneBefore(names, t, i) && !NoneBefore(names, t, k)
      decreases k - i
    {
      i := i + 1;
    }
  }

  /** A file is found at its entry exactly when no entry before it begins with the same character. */
  lemma FindKernelFinds(d: Disk, names: seq<seq<byte>>, k: nat)
    requires Dir(d, names) && k < |names|
    ensures LegalName(names[k])
    ensures FindKernel(d, names[k]) == Found(k, ENTRY_SIZE * k) <==> NoneBefore(names, names[k], k)
  {
    hide Dir, FindKernel;
    DirNames(d, names);
    var t := names[k];
    FindKernelIs(d, names, t);
    EntryMatching(d, names, t, k, 0);
    if NoneBefore(names, t, k) {
      WalkReaches(names, t, 0, k);
    } else {
      var i := FirstSharing(names, t, k);
      assert names[i] != t;
      WalkDrifts(names, t, i);
    }
  }

  /** A name that no entry begins like is not found. */
  lemma AbsentNotFound(d: Disk, names: seq<seq<byte>>, t: seq<byte>)
    requires Dir(d, names) && LegalName(t) && NoneBefore(names, t, |names|)
    ensures t !in names && FindKernel(d, t) == NotFound
  {
    hide Dir, FindKernel;
    DirNames(d, names);
    FindKernelIs(d, names, t);
    WalkReaches(names, t, 0, |names|);
  }

  /** The number that goes with a name found one or two characters off is that of the directory itself. */
  lemma OffByLittle(d: Disk, names: seq<seq<byte>>, j: nat, o: nat)
    requires Dir(d, names) && j < |names| <= ENTRIES && o <= 2
    ensures FoundAt(d[DATA_AT], ENTRY_SIZE * j + o) == Found(if o == 0 then j else 0, ENTRY_SIZE * j + o)
  {
    hide PtrInv;
    assert EntryIs(d[DATA_AT], j, names[j]);
  }

  /** The k-th character of the name of entry `j`; 0 behind its end, and where there is no entry. */
  function CharOf(names: seq<seq<byte>>, j: nat, k: nat): byte
  {
    if j < |names| && k < |names[j]| then names[j][k] else 0
  }

  /** The number that goes with a name found at entry `j`, off by `o`: from the third character on it is made of
      two characters of the next entry's name. */
  function OffNumber(names: seq<seq<byte>>, j: nat, o: nat): nat
  {
    if o == 0 then j
    else if o <= 2 then 0
    else if o == 3 then 256 * CharOf(names, j + 1, 0)
    else CharOf(names, j + 1, o - 4) + 256 * CharOf(names, j + 1, o - 3)
  }

  lemma NameByte(d: Disk, names: seq<seq<byte>>, j: nat, k: nat)
    requires Dir(d, names) && j < ENTRIES && k < NAME_SIZE
    ensures Formatted(d) && d[DATA_AT][ENTRY_SIZE * j + k] == CharOf(names, j, k)
  {
    hide PtrInv;
    var blk := d[DATA_AT];
    if j < |names| {
      assert EntryIs(blk, j, names[j]) && LegalName(names[j]);
      assert NameOf(blk, j)[k] == blk[ENTRY_SIZE * j + k] && NameOf(blk, j) == Padded(names[j]);
    } else {
      assert EntryEmpty(blk, j);
      assert blk[ENTRY_SIZE * j..ENTRY_SIZE * (j + 1)][k] == blk[ENTRY_SIZE * j + k];
    }
  }

  lemma NumberBytes(d: Disk, names: seq<seq<byte>>, j: nat)
    requires Dir(d, names) && j < |names| <= ENTRIES
    ensures Formatted(d)
    ensures var blk := d[DATA_AT]; var at := ENTRY_SIZE * j + NAME_SIZE;
      blk[at] == j && blk[at + 1] == blk[at + 2] == blk[at + 3] == 0
  {
    hide PtrInv;
    assert EntryIs(d[DATA_AT], j, names[j]);
  }

  /** Every answer of the search, in terms of names alone. */
  lemma FoundOff(d: Disk, names: seq<seq<byte>>, j: nat, o: nat)
    requires Dir(d, names) && j < |names| <= ENTRIES && o < NAME_SIZE
    ensures Formatted(d)
    ensures FoundAt(d[DATA_AT], ENTRY_SIZE * j + o) ==
      if j == 63 && o > 2 then Lost else Found(OffNumber(names, j, o), ENTRY_SIZE * j + o)
  {
    hide Dir, CharOf;
    DirNames(d, names);
    NumberBytes(d, names, j);
    if j < 63 {
      if o > 2 { NameByte(d, names, j + 1, o - 3); }
      if o > 3 { NameByte(d, names, j + 1, o - 4); }
    }
  }

  /** So a file can be on the disk and not be found: "k" behind "ka". */
  lemma DriftMisses(d: Disk)
    requires Dir(d, [[DOT], [107, 97], [107]])
    ensures FindFile(d, [107]) == Some(2) && FindKernel(d, [107]) == NotFound
  {
    hide Dir, FindKernel, FindFile;
    var names: seq<seq<byte>> := [[DOT], [107, 97], [107]];
    DirNames(d, names);
    assert names[2] == [107] && LegalName(names[2]);
    FindFileExact(d, names, [107]);
    FindKernelIs(d, names, [107]);
    assert Common([107, 97], [107]) == 1 && Suffix(names[2], 1) == [];
    assert Walk(names, [107], 2, 1) == Nowhere;
    assert Walk(names, [107], 1, 0) == Nowhere;
  }

  /** Or another be taken for it: with "k" behind "kb" and "xk" the loader finds a "k" inside "xk", and with
      it the inode of the directory. */
  lemma DriftMistakes(d: Disk)
    requires Dir(d, [[DOT], [107, 98], [120, 107], [107]])
    ensures FindFile(d, [107]) == Some(3) && FindKernel(d, [107]) == Found(0, 33)
  {
    hide Dir, FindKernel, FindFile;
    var names: seq<seq<byte>> := [[DOT], [107, 98], [120, 107], [107]];
    DirNames(d, names);
    assert names[3] == [107] && LegalName(names[3]);
    FindFileExact(d, names, [107]);
    FindKernelIs(d, names, [107]);
    assert Common([107, 98], [107]) == 1 && Suffix(names[2], 1) == [107];
    assert Walk(names, [107], 2, 1) == At(2, 1);
    assert Walk(names, [107], 1, 0) == At(2, 1);
    OffByLittle(d, names, 2, 1);
  }
}
