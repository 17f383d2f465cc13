/** What becomes of a file over whole runs: from the disk that mkefs makes, through any number of runs of
    writeefs, to the boot loader. */
module EfsRuns {
  import opened Wrappers
  import opened Words
  import opened SeqLemmas
  import opened Bytes
  import opened EfsLayout
  import opened EfsAlloc
  import opened EfsDir
  import opened EfsWrite
  import opened EfsFormat
  import opened EfsSpace
  import opened EfsOnce
  import opened BootLoad
  import opened BootFind
  import opened BootLoader

  /** Block `k` of file `n` is there and is that part of the data. */
  ghost predicate HasBlock(d: Disk, n: nat, data: seq<byte>, k: nat)
    requires Formatted(d) && n < INODES && k <= POINTERS
  {
    && k * BLOCK_SIZE < |data|
    && 0 < Ref(d, n, SlotOf(k)) < DataCount(d) && d[DATA_AT + Ref(d, n, SlotOf(k))] == Chunk(data, k)
  }

  /** The disk holds the file `s` in inode `n`: its size, and its data in its first 257 blocks. */
  ghost predicate Holds(d: Disk, names: seq<seq<byte>>, s: seq<byte>, data: seq<byte>, n: nat)
  {
    && Dir(d, names) && 0 < n < |names| && names[n] == s && n < INODES
    && Size(GetInode(d, n)) == |data|
    && forall k :: 0 <= k < Blocks(|data|) && k <= POINTERS ==> HasBlock(d, n, data, k)
  }

  /** Each block of a file that the disk holds is that part of the data, with zeros behind its end. */
  lemma HeldBytes(d: Disk, names: seq<seq<byte>>, s: seq<byte>, data: seq<byte>, n: nat, k: nat)
    requires Holds(d, names, s, data, n) && k < Blocks(|data|) && k <= POINTERS
    ensures Formatted(d) && n < INODES && DATA_AT + Ref(d, n, SlotOf(k)) < |d|
    ensures Fills(d[DATA_AT + Ref(d, n, SlotOf(k))], data, k)
  {
    hide Dir, PtrInv, Ref, Fills;
    DirFacts(d, names);
    assert HasBlock(d, n, data, k);
    ChunkFills(data, k);
  }

  /** What read_write has stored with success, the disk holds. */
  lemma StoredHolds(d: Disk, w: Written, names: seq<seq<byte>>, s: seq<byte>, data: seq<byte>, n: nat)
    requires Stored(d, w, names, s, data, n) && w.ok
    ensures Holds(w.d, With(names, s), s, data, n)
  {
    hide Dir, FilesKept, FindFile, Ref, PtrInv, GetInode;
    DirFacts(w.d, With(names, s));
    forall k | 0 <= k < Blocks(|data|) && k <= POINTERS ensures HasBlock(w.d, n, data, k) {
      assert BlockHeld(w.d, n, 0, w, data, k);
    }
  }

  /** What is stored when space runs out is the beginning of the data, in whole blocks. */
  lemma StoredHoldsSome(d: Disk, w: Written, names: seq<seq<byte>>, s: seq<byte>, data: seq<byte>, n: nat)
    requires Stored(d, w, names, s, data, n) && !w.ok
    ensures |w.at| * BLOCK_SIZE < |data| && Holds(w.d, With(names, s), s, data[..|w.at| * BLOCK_SIZE], n)
  {
    hide Dir, FilesKept, FindFile, Ref, PtrInv, GetInode, AllHeld, Buffer;
    DirFacts(w.d, With(names, s));
    var part := data[..|w.at| * BLOCK_SIZE];
    BlocksCover(|data|, |w.at|);
    forall k | 0 <= k < Blocks(|part|) && k <= POINTERS ensures HasBlock(w.d, n, part, k) {
      assert BlockHeld(w.d, n, 0, w, data, k) by { AllHeldAt(w.d, n, w, data, k); }
      SameChunk(data, |w.at|, k);
    }
  }

  lemma AllHeldAt(d: Disk, n: nat, w: Written, data: seq<byte>, k: nat)
    requires Formatted(d) && n < INODES && AllHeld(d, n, 0, w, data) && k < |w.at| && k <= POINTERS
    ensures BlockHeld(d, n, 0, w, data, k)
  {
  }

  lemma SameChunk(data: seq<byte>, m: nat, k: nat)
    requires k < m && m * BLOCK_SIZE < |data|
    ensures Chunk(data[..m * BLOCK_SIZE], k) == Chunk(data, k)
  {
    var a, b := data[..m * BLOCK_SIZE][k * BLOCK_SIZE..], data[k * BLOCK_SIZE..];
    assert a[..BLOCK_SIZE] == b[..BLOCK_SIZE];
  }

  /** A disk that holds a file is as if the file had just been stored: all that is proved of the boot
      loader after read_write is true of it. */
  lemma HoldsStored(d: Disk, names: seq<seq<byte>>, s: seq<byte>, data: seq<byte>, n: nat)
    requires Holds(d, names, s, data, n) && LegalName(s)
    ensures exists at :: Stored(d, Written(d, true, at), names, s, data, n)
  {
    hide Dir, PtrInv, GetInode, FindFile, Size;
    DirFacts(d, names);
    FindFileExact(d, names, s);
    var at := PlacesOf(d, n, Blocks(|data|));
    var w := Written(d, true, at);
    forall i | 0 <= i < |at| && i <= POINTERS ensures BlockHeld(d, n, 0, w, data, i) {
      assert HasBlock(d, n, data, i);
    }
    forall i | 0 <= i < |at| ensures DATA_AT < at[i] < |d| {
      assert HasBlock(d, n, data, if i <= POINTERS then i else 0);
    }
    assert Stored(d, w, names, s, data, n);
  }

  /** The places of the file's blocks; that of the first for those which have no pointer. */
  function PlacesOf(d: Disk, n: nat, blocks: nat): (at: seq<nat>)
    requires Formatted(d) && n < INODES
    ensures |at| == blocks
    ensures forall i :: 0 <= i < blocks && i <= POINTERS ==> at[i] == DATA_AT + Ref(d, n, SlotOf(i))
    ensures forall i :: POINTERS < i < blocks ==> at[i] == DATA_AT + Ref(d, n, 0)
  {
    seq(blocks, i requires 0 <= i < blocks => PlaceOf(d, n, i))
  }

  function PlaceOf(d: Disk, n: nat, i: nat): nat
    requires Formatted(d) && n < INODES
  {
    DATA_AT + Ref(d, n, if i <= POINTERS then SlotOf(i) else 0)
  }

  /** A run of writeefs for another name, whether or not it succeeds, leaves the file as it is. */
  lemma JobKeeps(d: Disk, names: seq<seq<byte>>, j: Job, s: seq<byte>, data: seq<byte>, n: nat)
    requires Holds(d, names, s, data, n) && FileName(j.name) && |j.data| < WORD32 && j.name != s
    ensures var (d', names') := RunJob(d, names, j); Holds(d', names', s, data, n)
  {
    hide Dir, PtrInv, GetInode, Ref, FindFile, ReadWrite, AllHeld, Size;
    ReadWriteEffect(d, names, j.name, j.data);
    match ReadWrite(d, names, j.name, j.data)
    case None =>
    case Some(w) =>
      var m: nat :| Stored(d, w, names, j.name, j.data, m);
      DirFacts(w.d, With(names, j.name));
      assert With(names, j.name)[n] == s && m != n;
      forall k | 0 <= k < Blocks(|data|) && k <= POINTERS ensures HasBlock(w.d, n, data, k) {
        assert HasBlock(d, n, data, k) && PointerKept(d, w.d, n, SlotOf(k));
      }
  }

  predicate OtherNames(js: seq<Job>, s: seq<byte>) { forall i :: 0 <= i < |js| ==> js[i].name != s }

  lemma {:induction false} RunKeeps(d: Disk, names: seq<seq<byte>>, js: seq<Job>, s: seq<byte>, data: seq<byte>, n: nat)
    requires Holds(d, names, s, data, n) && Jobs(js) && OtherNames(js, s)
    ensures var (d', names') := RunJobs(d, names, js); Holds(d', names', s, data, n)
    decreases |js|
  {
    hide Holds, RunJob, Dir;
    HoldsDir(d, names, s, data, n);
    if js != [] {
      JobKeeps(d, names, js[0], s, data, n);
      RunJobKeepsDir(d, names, js[0]);
      var (d1, names1) := RunJob(d, names, js[0]);
      RunKeeps(d1, names1, js[1..], s, data, n);
    }
  }

  lemma HoldsDir(d: Disk, names: seq<seq<byte>>, s: seq<byte>, data: seq<byte>, n: nat)
    requires Holds(d, names, s, data, n)
    ensures Dir(d, names) && n < |names| && names[n] == s
  {
  }

  /** From any disk in order, and so from any that mkefs and writeefs have made: a file that has been
      written with success is on the disk under its name, with its data, after any sequence of runs for
      other names, including runs that are stopped by lack of space. */
  lemma WrittenStays(d: Disk, names: seq<seq<byte>>, s: seq<byte>, data: seq<byte>, js: seq<Job>)
    requires Dir(d, names) && FileName(s) && |data| < WORD32 && Jobs(js) && OtherNames(js, s)
    requires ReadWrite(d, names, s, data).Some? && ReadWrite(d, names, s, data).value.ok
    ensures var w := ReadWrite(d, names, s, data).value;
      Dir(w.d, With(names, s)) &&
      var (d', names') := RunJobs(w.d, With(names, s), js);
      exists n :: Holds(d', names', s, data, n)
  {
    hide Holds, Dir, ReadWrite, FilesKept, FindFile;
    ReadWriteEffect(d, names, s, data);
    var w := ReadWrite(d, names, s, data).value;
    var n: nat :| Stored(d, w, names, s, data, n);
    StoredHolds(d, w, names, s, data, n);
    RunKeeps(w.d, With(names, s), js, s, data, n);
  }

  /** Any sequence of runs of writeefs on a disk that mkefs has made leaves the directory in order, no block
      with two owners, and no block handed out twice: not at a time, and not one after the other.  The superblock
      stays as mkefs wrote it, so the next run finds it valid. */
  lemma FreshRuns(d: Disk, js: seq<Job>)
    requires Raw(d) && Jobs(js)
    ensures Dir(Made(d), [[DOT]]) &&
      var (d', names) := RunJobs(Made(d), [[DOT]], js);
      && Dir(d', names) && PtrInv(d') && ValidateEfs(d') && d'[0][..532] == SuperBlock(|d|)[..532]
      && Handed(Made(d), d', RunHands(Made(d), [[DOT]], js)) && PutOnce(Made(d), d', RunPlaces(Made(d), [[DOT]], js))
  {
    hide Dir, PtrInv, Handed, PutOnce, Made, SuperBlock, ValidateEfs, RunJobs, RunHands, RunPlaces, PointerGrows;
    MadeEffect(d);
    RunsKeepDir(Made(d), [[DOT]], js);
    HandedOnce(Made(d), [[DOT]], js);
    var d' := RunJobs(Made(d), [[DOT]], js).0;
    HandedGrows(Made(d), d', RunHands(Made(d), [[DOT]], js));
    SuperStays(d, d');
  }

  // ---------------------------------------------------------------- the loader

  /** The loader gets the data of a file that the disk holds into memory exactly when the file has less than
      35 blocks and is not read off the disk, if no earlier name begins as the file's does. */
  lemma HeldBoots(d: Disk, names: seq<seq<byte>>, s: seq<byte>, data: seq<byte>, n: nat, m: Memory)
    requires Holds(d, names, s, data, n) && LegalName(s) && NoneBefore(names, s, n)
    ensures NoNul(s) && Formatted(d) && n < INODES && Booted(d, m, s).Some?
    ensures var (status, m') := Booted(d, m, s).value;
      status == Well && data <= Image(m', LastBlock(GetInode(d, n))) <==> |data| < LIMIT && !ReadsOff(d, n, |data|)
  {
    hide Dir, Stored, Booted, ReadsOff, Holds;
    HoldsDir(d, names, s, data, n);
    DirFacts(d, names);
    HoldsStored(d, names, s, data, n);
    var at :| Stored(d, Written(d, true, at), names, s, data, n);
    assert With(names, s) == names;
    StoredBoots(d, Written(d, true, at), names, s, data, n, m);
  }

  function NamesOf(js: seq<Job>): (r: seq<seq<byte>>)
    ensures |r| == |js| && forall i :: 0 <= i < |js| ==> r[i] == js[i].name
  {
    seq(|js|, i requires 0 <= i < |js| => js[i].name)
  }

  /** Runs for new names list them in their order, as far as there are inodes, whatever the data. */
  lemma {:induction false} NewNames(d: Disk, names: seq<seq<byte>>, js: seq<Job>)
    requires Dir(d, names) && Jobs(js) && |names| + |js| <= ENTRIES && NoDup(names + NamesOf(js))
    ensures var (d', names') := RunJobs(d, names, js); Dir(d', names') && names' == names + NamesOf(js)
    decreases |js|
  {
    hide Dir, ReadWrite, RunJob, NoDup, NamesOf;
    RunsKeepDir(d, names, js);
    NamesNext(names, js);
    if js != [] {
      RunJobKeepsDir(d, names, js[0]);
      HeadIsNew(names, NamesOf(js));
      NewName(d, names, js[0]);
      var (d1, names1) := RunJob(d, names, js[0]);
      NewNames(d1, names1, js[1..]);
    }
  }

  lemma NamesNext(names: seq<seq<byte>>, js: seq<Job>)
    ensures js == [] ==> names + NamesOf(js) == names
    ensures js != [] ==> names + NamesOf(js) == (names + [js[0].name]) + NamesOf(js[1..])
  {
    hide NamesOf;
    if js != [] {
      NamesCons(js);
      assert names + ([js[0].name] + NamesOf(js[1..])) == (names + [js[0].name]) + NamesOf(js[1..]);
    }
  }

  lemma NamesCons(js: seq<Job>)
    requires js != []
    ensures NamesOf(js) == [js[0].name] + NamesOf(js[1..])
  {
  }

  lemma HeadIsNew(names: seq<seq<byte>>, r: seq<seq<byte>>)
    requires NoDup(names + r) && r != []
    ensures r[0] !in names
  {
    var all := names + r;
    forall i | 0 <= i < |names| ensures names[i] != r[0] { assert all[i] != all[|names|]; }
  }

  lemma NewName(d: Disk, names: seq<seq<byte>>, j: Job)
    requires Dir(d, names) && FileName(j.name) && |j.data| < WORD32 && j.name !in names && |names| < ENTRIES
    ensures RunJob(d, names, j).1 == names + [j.name]
  {
    hide Dir, ReadWrite;
    ReadWriteEffect(d, names, j.name, j.data);
  }

  /** Every disk that mkefs makes becomes one on which the loader does not find a file that is there, once
      files "ka" and "k" are written, with any data. */
  lemma MissIsReached(d: Disk, a: seq<byte>, b: seq<byte>)
    requires Raw(d) && |a| < WORD32 && |b| < WORD32
    ensures var js := [Job([107, 97], a), Job([107], b)];
      Dir(Made(d), [[DOT]]) && Jobs(js) &&
      var d' := RunJobs(Made(d), [[DOT]], js).0;
      Formatted(d') && FindFile(d', [107]) == Some(2) && BootFind.FindKernel(d', [107]) == NotFound
  {
    hide Dir, BootFind.FindKernel, FindFile, RunJobs;
    var js := [Job([107, 97], a), Job([107], b)];
    MadeEffect(d);
    NewNames(Made(d), [[DOT]], js);
    assert [[DOT]] + NamesOf(js) == [[DOT], [107, 97], [107]];
    var d' := RunJobs(Made(d), [[DOT]], js).0;
    DirFacts(d', [[DOT], [107, 97], [107]]);
    DriftMisses(d');
  }

  /** And one on which it takes the directory for the file, once "kb", "xk" and "k" are. */
  lemma MistakeIsReached(d: Disk, a: seq<byte>, b: seq<byte>, c: seq<byte>)
    requires Raw(d) && |a| < WORD32 && |b| < WORD32 && |c| < WORD32
    ensures var js := [Job([107, 98], a), Job([120, 107], b), Job([107], c)];
      Dir(Made(d), [[DOT]]) && Jobs(js) &&
      var d' := RunJobs(Made(d), [[DOT]], js).0;
      Formatted(d') && FindFile(d', [107]) == Some(3) && BootFind.FindKernel(d', [107]) == Found(0, 33)
  {
    hide Dir, BootFind.FindKernel, FindFile, RunJobs;
    var js := [Job([107, 98], a), Job([120, 107], b), Job([107], c)];
    MadeEffect(d);
    NewNames(Made(d), [[DOT]], js);
    assert [[DOT]] + NamesOf(js) == [[DOT], [107, 98], [120, 107], [107]];
    var d' := RunJobs(Made(d), [[DOT]], js).0;
    DirFacts(d', [[DOT], [107, 98], [120, 107], [107]]);
    DriftMistakes(d');
  }

  /** From mkefs to the loader: the first file written to a disk, and how loading it ends. */
  lemma NewDiskBoots(d: Disk, s: seq<byte>, data: seq<byte>, m: Memory)
    requires Raw(d) && FileName(s) && s[0] != DOT && |data| < WORD32
    requires |d| - DATA_AT - 1 >= Blocks(|data|) + if |data| > DIRECT * BLOCK_SIZE then 1 else 0
    ensures Dir(Made(d), [[DOT]]) && Jobs([Job(s, data)])
    ensures var d' := RunJobs(Made(d), [[DOT]], [Job(s, data)]).0;
      var off := |data| == DIRECT * BLOCK_SIZE && |d| <= DATA_AT + DOT as nat;
      Formatted(d') && Booted(d', m, s).Some? &&
      var (status, m') := Booted(d', m, s).value;
      && (status == Failed <==> off) && (status == Well <==> !off && !Overruns(|data|))
      && (status == Fault <==> Overruns(|data|) && (U16At(data, 0x8B03) == 0 || U16At(data, 0x8B05) == 0))
      && (status == Well && data <= Image(m', LastBlock(GetInode(d', 1))) <==> |data| < LIMIT && !off)
      && (status != Failed && |data| < LIMIT ==> ZerosBehind(m', data))
  {
    hide Dir, PtrInv, ReadWrite, FindFile, Stored, Booted, Load, Ref, Made, GetInode, FreeBlocks, ReadsOff, ZerosBehind;
    var d0 := Made(d);
    MadeFree(d);
    SecondPlace(s);
    ReadWriteFinishes(d0, [[DOT]], s, data, 1);
    ReadWriteEffect(d0, [[DOT]], s, data);
    var w := ReadWrite(d0, [[DOT]], s, data).value;
    var n: nat :| Stored(d0, w, [[DOT]], s, data, n);
    StoredAt(d0, w, s, data, n);
    RunOfOne(d0, [[DOT]], Job(s, data));
    StoredBoots(d0, w, [[DOT]], s, data, 1, m);
    LoadsFile(d0, w, [[DOT]], s, data, 1, m);
    if |data| == DIRECT * BLOCK_SIZE { ReadWriteDirect(d0, [[DOT]], s, data, 1); }
    ReadsOffIs(w.d, 1, |data|);
  }

  lemma ReadsOffIs(d: Disk, n: nat, size: nat)
    requires Formatted(d) && n < INODES
    ensures ReadsOff(d, n, size) <==>
      size == DIRECT * BLOCK_SIZE && Ref(d, n, INDIRECT) == 0 && |d| <= DATA_AT + DOT as nat
  {
  }

  lemma StoredAt(d: Disk, w: Written, s: seq<byte>, data: seq<byte>, n: nat)
    requires Stored(d, w, [[DOT]], s, data, n) && FileName(s) && s[0] != DOT
    ensures n == 1 && Formatted(w.d) && |w.d| == |d| && NoneBefore([[DOT], s], s, 1) && With([[DOT]], s) == [[DOT], s]
  {
    hide Dir, PtrInv, FindFile, AllHeld;
    SecondPlace(s);
    DirFacts(w.d, With([[DOT]], s));
    PlaceFound([[DOT]], s, 1, n);
  }

  /** On every new disk with room for it, a file of 40000 zero bytes makes the loader divide by 0. */
  lemma FaultIsReached(d: Disk, s: seq<byte>, m: Memory)
    requires Raw(d) && FileName(s) && s[0] != DOT && |d| > DATA_AT + 41
    ensures Dir(Made(d), [[DOT]]) && Jobs([Job(s, Zeros(40000))])
    ensures var d' := RunJobs(Made(d), [[DOT]], [Job(s, Zeros(40000))]).0;
      Formatted(d') && Booted(d', m, s).Some? && Booted(d', m, s).value.0 == Fault
  {
    hide Dir, Booted, RunJobs, Made;
    NewDiskBoots(d, s, Zeros(40000), m);
  }

  /** On every new disk with room for it that has at most 51 blocks, the loader reads off the disk for a file of
      five full blocks. */
  lemma ReadsOffIsReached(d: Disk, s: seq<byte>, data: seq<byte>, m: Memory)
    requires Raw(d) && FileName(s) && s[0] != DOT && |data| == DIRECT * BLOCK_SIZE
    requires DATA_AT + DIRECT < |d| <= DATA_AT + DOT as nat
    ensures Dir(Made(d), [[DOT]]) && Jobs([Job(s, data)])
    ensures var d' := RunJobs(Made(d), [[DOT]], [Job(s, data)]).0;
      Formatted(d') && Booted(d', m, s).Some? && Booted(d', m, s).value.0 == Failed
  {
    hide Dir, Booted, RunJobs, Made;
    NewDiskBoots(d, s, data, m);
  }
}
