/** The two rotating log files. The directory is a map from file names to their
    records; renaming and removing have the semantics of the C library. */

module LogDirectory {

  type Record = seq<nat>

  type Content = seq<Record>

  /** The configured path itself, or the path with ".n" appended. */
  datatype FileName = Live | Backup(n: nat)

  type Directory = map<FileName, Content>

  function Name(i: nat): FileName {
    if i == 0 then Live else Backup(i)
  }

  ghost function Index(f: FileName): nat {
    match f
    case Live => 0
    case Backup(n) => n
  }

  /** std::rename: a missing source changes nothing, an existing target is replaced. */
  function Renamed(dir: Directory, from: FileName, to: FileName): Directory
    requires from != to
  {
    if from in dir then (dir - {from})[to := dir[from]] else dir
  }

  function Size(c: Content): nat {
    if c == [] then 0 else Size(c[..|c| - 1]) + |c[|c| - 1]|
  }

  // ------------------------------------------------------------- chains of files

  /** The directory holds exactly the files of the chain: the live file first, then
      the backups from the newest, with no gap in their numbers. */
  ghost predicate Holds(dir: Directory, chain: seq<Content>) {
    && (forall f :: f in dir <==> f == Name(Index(f)) && Index(f) < |chain|)
    && (forall i | 0 <= i < |chain| :: dir[Name(i)] == chain[i])
  }

  /** The record added to the live file, if it is written at all. */
  ghost function Appended(chain: seq<Content>, line: Record, written: bool): seq<Content>
    requires chain != []
  {
    if written then chain[0 := chain[0] + [line]] else chain
  }

  /** As above, but with the files from position i on moved up by one number. */
  ghost predicate HoldsShifted(dir: Directory, chain: seq<Content>, i: nat) {
    && (forall f :: f in dir <==>
         && f == Name(Index(f)) && Index(f) != i
         && (if Index(f) < i then Index(f) < |chain| else Index(f) <= |chain|))
    && (forall k | 0 <= k < |chain| :: dir[Name(if k < i then k else k + 1)] == chain[k])
  }

  lemma RenameShifts(dir: Directory, chain: seq<Content>, i: nat)
    requires i > 0 && HoldsShifted(dir - {Name(i)}, chain, i)
    requires Name(i) in dir ==> i <= |chain|
    ensures HoldsShifted(Renamed(dir, Name(i - 1), Name(i)), chain, i - 1)
  {
    var to := Renamed(dir, Name(i - 1), Name(i));
    forall f
      ensures f in to <==>
        && f == Name(Index(f)) && Index(f) != i - 1
        && (if Index(f) < i - 1 then Index(f) < |chain| else Index(f) <= |chain|)
    {
      assert f in dir - {Name(i)} <==> f in dir && f != Name(i);
    }
    forall k | 0 <= k < |chain|
      ensures to[Name(if k < i - 1 then k else k + 1)] == chain[k]
    {
      var g := Name(if k < i then k else k + 1);
      assert (dir - {Name(i)})[g] == chain[k];
    }
  }

  // ------------------------------------------------------------ what is retained

  /** All records of the chain, oldest first. */
  ghost function Retained(chain: seq<Content>): Content
    decreases |chain|
  {
    if chain == [] then [] else Retained(chain[1..]) + chain[0]
  }

  ghost predicate IsSuffix(s: Content, whole: Content) {
    |s| <= |whole| && s == whole[|whole| - |s|..]
  }

  lemma {:induction false} RetainedSplit(chain: seq<Content>, m: nat)
    requires m <= |chain|
    ensures Retained(chain) == Retained(chain[m..]) + Retained(chain[..m])
    decreases m
  {
    if m == 0 {
      assert chain[0..] == chain;
    } else {
      RetainedSplit(chain[1..], m - 1);
      assert chain[1..][m - 1..] == chain[m..] && chain[1..][..m - 1] == chain[..m][1..];
    }
  }

  /** Starting an empty live file and dropping the oldest files keeps a suffix. */
  lemma RotationKeepsSuffix(chain: seq<Content>, m: nat, written: Content)
    requires m <= |chain| && IsSuffix(Retained(chain), written)
    ensures IsSuffix(Retained([[]] + chain[..m]), written)
    ensures m == |chain| ==> Retained([[]] + chain[..m]) == Retained(chain)
  {
    RetainedSplit(chain, m);
    assert ([[]] + chain[..m])[1..] == chain[..m];
  }

  lemma AppendKeepsSuffix(chain: seq<Content>, line: Record, written: Content)
    requires chain != [] && IsSuffix(Retained(chain), written)
    ensures var longer := chain[0 := chain[0] + [line]];
      && IsSuffix(Retained(longer), written + [line])
      && Retained(longer) == Retained(chain) + [line]
      && Size(longer[0]) == Size(chain[0]) + |line|
  {
    var longer := chain[0 := chain[0] + [line]];
    assert longer[1..] == chain[1..];
    assert longer[0][..|longer[0]| - 1] == chain[0];
  }

  /** The chain as it is on disk; a live file that could not be opened is missing. */
  ghost predicate OnDisk(dir: Directory, chain: seq<Content>) {
    && chain != []
    && (Holds(dir, chain) || (chain[0] == [] && Live !in dir && Holds(dir[Live := []], chain)))
  }

  /** All files moved up by one and backup n removed: the live file is next. */
  lemma ReadyForLive(dir: Directory, chain: seq<Content>, n: nat)
    requires HoldsShifted(dir, chain, 0) && |chain| <= n && n > 0
    ensures var rest := dir - {Backup(n)};
      Live !in rest && Holds(rest[Live := []], [[]] + chain[..if |chain| < n then |chain| else n - 1])
  {
    var c := [[]] + chain[..if |chain| < n then |chain| else n - 1];
    var to := (dir - {Backup(n)})[Live := []];
    forall f
      ensures f in to <==> f == Name(Index(f)) && Index(f) < |c|
    {
      assert f in dir <==> f == Name(Index(f)) && Index(f) != 0 && Index(f) <= |chain|;
    }
    forall i | 0 <= i < |c|
      ensures to[Name(i)] == c[i]
    {
      if i > 0 {
        assert dir[Name(i)] == chain[i - 1];
      }
    }
  }

  lemma NoBackupZero(dir: Directory, chain: seq<Content>)
    requires Holds(dir, chain)
    ensures dir - {Backup(0)} == dir
  {
    assert Backup(0) != Name(0);
  }

  lemma HeldLive(dir: Directory, chain: seq<Content>)
    requires chain != []
    ensures Holds(dir, chain) ==> Live in dir && dir[Live] == chain[0]
  {
    assert Name(0) == Live;
  }

  lemma NothingShiftedYet(dir: Directory, chain: seq<Content>, i: nat)
    requires Holds(dir, chain) && |chain| <= i
    ensures HoldsShifted(dir, chain, i)
  {
  }

  lemma FreeSlot(dir: Directory, chain: seq<Content>, i: nat)
    requires HoldsShifted(dir, chain, i)
    ensures dir - {Name(i)} == dir && Name(i) !in dir
  {
  }

  lemma AppendToLive(dir: Directory, chain: seq<Content>, line: Record)
    requires chain != [] && Holds(dir, chain)
    ensures Holds(dir[Live := dir[Live] + [line]], chain[0 := chain[0] + [line]])
  {
    assert dir[Name(0)] == chain[0];
  }
}

/** FileSink: rotates after the write that reaches the size limit. */
module FileSinkModel {
  import opened LogDirectory

  /** A backup reached the limit with its last record and not before. */
  ghost predicate Full(c: Content, limit: nat) {
    c != [] && Size(c) >= limit && Size(c[..|c| - 1]) < limit
  }

  /** At most maxFiles - 1 backups; backups and live file together hold a suffix of
      what was written, all of it while there is room; every backup was cut exactly
      at the limit. */
  ghost predicate Keeps(maxFiles: nat, limit: nat, chain: seq<Content>, written: Content) {
    && 1 <= |chain| <= (if maxFiles == 0 then 1 else maxFiles)
    && IsSuffix(Retained(chain), written)
    && (|chain| < maxFiles || maxFiles == 0 ==> Retained(chain) == written)
    && (limit == 0 ==> |chain| == 1)
    && (forall i | 1 <= i < |chain| :: Full(chain[i], limit))
  }

  /** An empty live file in front of the newest maxFiles - 1 files. */
  ghost function Rotated(maxFiles: nat, chain: seq<Content>): seq<Content>
    requires 0 < maxFiles
  {
    [[]] + chain[..if |chain| < maxFiles then |chain| else maxFiles - 1]
  }

  lemma RotationKeeps(maxFiles: nat, limit: nat, chain: seq<Content>, written: Content)
    requires Keeps(maxFiles, limit, chain, written) && maxFiles > 0 && limit > 0 && Full(chain[0], limit)
    ensures Keeps(maxFiles, limit, Rotated(maxFiles, chain), written)
  {
    hide Retained, Full, IsSuffix;
    RotationKeepsSuffix(chain, if |chain| < maxFiles then |chain| else maxFiles - 1, written);
  }

  lemma AppendKeeps(maxFiles: nat, limit: nat, chain: seq<Content>, written: Content, line: Record)
    requires Keeps(maxFiles, limit, chain, written)
    ensures var longer := chain[0 := chain[0] + [line]];
      && Keeps(maxFiles, limit, longer, written + [line])
      && Size(longer[0]) == Size(chain[0]) + |line|
      && (Size(chain[0]) < limit <= Size(longer[0]) ==> Full(longer[0], limit))
  {
    hide Retained, Full, IsSuffix;
    AppendKeepsSuffix(chain, line, written);
    CutAtLimit(chain[0], line, limit);
  }

  lemma CutAtLimit(c: Content, line: Record, limit: nat)
    ensures Size(c) < limit <= Size(c + [line]) ==> Full(c + [line], limit)
  {
    assert (c + [line])[..|c|] == c;
  }

  class FileSink {
    const maxFiles: nat
    const maxFileSize: nat
    var dir: Directory
    var isOpen: bool
    var currentSize: nat
    // The files as a chain, and every record that reached a file.
    ghost var chain: seq<Content>
    ghost var written: Content

    ghost predicate Valid()
      reads this
    {
      && OnDisk(dir, chain)
      && (isOpen ==> Holds(dir, chain) && currentSize == Size(chain[0]))
      && Keeps(maxFiles, maxFileSize, chain, written)
      && (maxFileSize > 0 && maxFiles > 0 ==> Size(chain[0]) < maxFileSize)
    }

    constructor (maxFiles: nat, maxFileSize: nat, canOpen: bool)
      ensures Valid() && this.maxFiles == maxFiles && this.maxFileSize == maxFileSize
      ensures written == [] && isOpen == canOpen
    {
      this.maxFiles, this.maxFileSize := maxFiles, maxFileSize;
      dir := if canOpen then map[Live := []] else map[];
      isOpen := canOpen;
      currentSize := 0;
      chain, written := [[]], [];
    }

    /** Opens the live file for appending, if the operating system lets it: the directory
        then holds the whole chain again. */
    method Open(canOpen: bool)
      requires OnDisk(dir, chain)
      modifies this`dir, this`isOpen, this`currentSize
      ensures OnDisk(dir, chain) && isOpen == canOpen
      ensures canOpen ==> Holds(dir, chain) && currentSize == Size(chain[0])
      ensures !canOpen ==> dir == old(dir) && currentSize == old(currentSize)
    {
      hide Holds;
      HeldLive(dir, chain);
      isOpen := canOpen;
      if canOpen {
        if Live !in dir {
          dir := dir[Live := []];
        }
        HeldLive(dir, chain);
        currentSize := Size(dir[Live]);
      }
    }

    /** The renaming loop, from the highest number down to the live file. */
    method ShiftFiles()
      requires maxFiles > 0 && Holds(dir, chain) && |chain| <= maxFiles
      modifies this`dir
      ensures HoldsShifted(dir, chain, 0)
    {
      hide Holds, HoldsShifted;
      var i := maxFiles;
      NothingShiftedYet(dir, chain, maxFiles);
      while i > 0
        invariant 0 <= i <= maxFiles && HoldsShifted(dir, chain, i)
      {
        FreeSlot(dir, chain, i);
        i := i - 1;
        RenameShifts(dir, chain, i + 1);
        dir := Renamed(dir, Name(i), Backup(i + 1));
      }
    }

    method Rotate(canOpen: bool)
      requires isOpen && Holds(dir, chain) && Keeps(maxFiles, maxFileSize, chain, written)
      requires maxFileSize > 0 && (maxFiles > 0 ==> Full(chain[0], maxFileSize))
      modifies this
      ensures Valid() && isOpen == canOpen && written == old(written)
      ensures chain == if maxFiles == 0 then old(chain) else Rotated(maxFiles, old(chain))
    {
      hide Holds, HoldsShifted, Full, Retained, IsSuffix;
      isOpen := false;
      ghost var files := chain;
      if maxFiles > 0 {
        ShiftFiles();
        ReadyForLive(dir, files, maxFiles);
        RotationKeeps(maxFiles, maxFileSize, files, written);
        chain := Rotated(maxFiles, files);
      } else {
        NoBackupZero(dir, chain);
        HeldLive(dir, chain);
      }
      dir := dir - {Backup(maxFiles)};
      currentSize := 0;
      Open(canOpen);
      HeldLive(dir, chain);
    }

    /** Appends one line, unless the file is not open, and rotates when the limit is reached. */
    method Write(line: Record, canOpen: bool)
      requires Valid()
      modifies this
      ensures Valid()
      ensures written == if old(isOpen) then old(written) + [line] else old(written)
      ensures !old(isOpen) ==> dir == old(dir) && !isOpen
      ensures var longer := Appended(old(chain), line, old(isOpen));
        var full := old(isOpen) && maxFileSize > 0 && old(currentSize) + |line| >= maxFileSize;
        && chain == (if full && maxFiles > 0 then Rotated(maxFiles, longer) else longer)
        && isOpen == (old(isOpen) && (full ==> canOpen))
    {
      hide Holds, Keeps, Full;
      if !isOpen {
        return;
      }
      HeldLive(dir, chain);
      AppendToLive(dir, chain, line);
      AppendKeeps(maxFiles, maxFileSize, chain, written, line);
      dir := dir[Live := dir[Live] + [line]];
      chain, written := chain[0 := chain[0] + [line]], written + [line];
      currentSize := currentSize + |line|;
      if maxFileSize > 0 && currentSize >= maxFileSize {
        Rotate(canOpen);
      }
    }
  }
}

/** StructuredFileSink: rotates before the write that would exceed the size limit. */
module StructuredFileSinkModel {
  import opened LogDirectory

  /** The first record of the newer file did not fit into the older. */
  ghost predicate Followed(older: Content, newer: Content, limit: nat) {
    newer != [] ==> Size(older) + |newer[0]| > limit
  }

  /** At most maxFiles backups; backups and live file together hold a suffix of what
      was written, all of it while there is room; every file is within the limit or
      holds exactly one record; and no file was left before the first record of the next
      would have exceeded its limit. */
  ghost predicate Keeps(maxFiles: nat, limit: nat, chain: seq<Content>, written: Content) {
    && 1 <= |chain| <= maxFiles + 1
    && IsSuffix(Retained(chain), written)
    && (|chain| <= maxFiles ==> Retained(chain) == written)
    && (forall i | 0 <= i < |chain| :: Size(chain[i]) <= limit || |chain[i]| == 1)
    && (forall i | 1 <= i < |chain| :: Followed(chain[i], chain[i - 1], limit))
  }

  /** An empty live file in front of the newest maxFiles files. */
  ghost function Rotated(maxFiles: nat, chain: seq<Content>): seq<Content> {
    [[]] + chain[..if |chain| <= maxFiles then |chain| else maxFiles]
  }

  lemma RotationKeeps(maxFiles: nat, limit: nat, chain: seq<Content>, written: Content)
    requires Keeps(maxFiles, limit, chain, written)
    ensures Keeps(maxFiles, limit, Rotated(maxFiles, chain), written)
  {
    hide Retained, IsSuffix;
    RotationKeepsSuffix(chain, if |chain| <= maxFiles then |chain| else maxFiles, written);
    assert Size([]) == 0;
  }

  lemma AppendKeeps(maxFiles: nat, limit: nat, chain: seq<Content>, written: Content, line: Record)
    requires Keeps(maxFiles, limit, chain, written)
    requires chain[0] == [] || Size(chain[0]) + |line| <= limit
    requires chain[0] == [] && |chain| > 1 ==> Size(chain[1]) + |line| > limit
    ensures var longer := chain[0 := chain[0] + [line]];
      Keeps(maxFiles, limit, longer, written + [line]) && Size(longer[0]) == Size(chain[0]) + |line|
  {
    hide Retained, IsSuffix, Size;
    AppendKeepsSuffix(chain, line, written);
  }

  class StructuredFileSink {
    const maxFiles: nat
    const maxSize: nat
    var dir: Directory
    var isOpen: bool
    var currentSize: nat
    // The files as a chain, and every record that reached a file.
    ghost var chain: seq<Content>
    ghost var written: Content

    ghost predicate Sound()
      reads this
    {
      && maxFiles > 0
      && OnDisk(dir, chain)
      && (isOpen ==> Holds(dir, chain) && currentSize == Size(chain[0]))
      && Keeps(maxFiles, maxSize, chain, written)
    }

    /** Between writes an open live file is empty only if nothing was rotated out. */
    ghost predicate Valid()
      reads this
    {
      Sound() && (isOpen && chain[0] == [] ==> |chain| == 1)
    }

    /** validPath is the outcome of the path check; canOpen that of opening the file. */
    constructor (maxFiles: nat, maxSize: nat, validPath: bool, canOpen: bool)
      requires maxFiles > 0
      ensures Valid() && this.maxFiles == maxFiles && this.maxSize == maxSize
      ensures written == [] && isOpen == (validPath && canOpen)
    {
      this.maxFiles, this.maxSize := maxFiles, maxSize;
      dir := if validPath && canOpen then map[Live := []] else map[];
      isOpen := validPath && canOpen;
      currentSize := 0;
      chain, written := [[]], [];
    }

    /** As in FileSink. */
    method Open(canOpen: bool)
      requires OnDisk(dir, chain)
      modifies this`dir, this`isOpen, this`currentSize
      ensures OnDisk(dir, chain) && isOpen == canOpen
      ensures canOpen ==> Holds(dir, chain) && currentSize == Size(chain[0])
      ensures !canOpen ==> dir == old(dir) && currentSize == old(currentSize)
    {
      hide Holds;
      HeldLive(dir, chain);
      isOpen := canOpen;
      if canOpen {
        if Live !in dir {
          dir := dir[Live := []];
        }
        HeldLive(dir, chain);
        currentSize := Size(dir[Live]);
      }
    }

    /** Backups move up, the last one onto the oldest; then the live file becomes the first. */
    method ShiftFiles()
      requires maxFiles > 0 && Holds(dir, chain) && |chain| <= maxFiles + 1
      modifies this`dir
      ensures HoldsShifted(dir, chain[..if |chain| <= maxFiles then |chain| else maxFiles], 0)
    {
      hide Holds, HoldsShifted;
      ghost var kept := chain[..if |chain| <= maxFiles then |chain| else maxFiles];
      LastSlotFreed(dir, chain, maxFiles);
      var i := maxFiles - 1;
      while i > 0
        invariant 0 <= i < maxFiles
        invariant HoldsShifted(dir - {Name(i + 1)}, kept, i + 1)
        invariant Name(i + 1) in dir ==> i + 1 <= |kept|
      {
        RenameShifts(dir, kept, i + 1);
        dir := Renamed(dir, Backup(i), Backup(i + 1));
        FreeSlot(dir, kept, i);
        i := i - 1;
      }
      RenameShifts(dir, kept, 1);
      dir := Renamed(dir, Live, Backup(1));
    }

    method Rotate(canOpen: bool)
      requires Sound() && isOpen
      modifies this
      ensures Sound() && isOpen == canOpen && written == old(written)
      ensures chain == Rotated(maxFiles, old(chain)) && currentSize == 0
    {
      hide Holds, HoldsShifted, Retained, IsSuffix;
      isOpen := false;
      ghost var files := chain;
      ShiftFiles();
      AllMoved(dir, files[..if |files| <= maxFiles then |files| else maxFiles]);
      RotationKeeps(maxFiles, maxSize, files, written);
      chain := Rotated(maxFiles, files);
      currentSize := 0;
      Open(canOpen);
      HeldLive(dir, chain);
    }

    /** Appends one record, rotating first when it would not fit. A record is lost when
        the file is not open, or cannot be opened again after the rotation. */
    method Write(line: Record, canOpen: bool)
      requires Valid()
      modifies this
      ensures Valid()
      ensures var fits := old(currentSize) + |line| <= maxSize;
        var stays := old(isOpen) && (fits || canOpen);
        && written == (if stays then old(written) + [line] else old(written)) && isOpen == stays
        && chain == Appended(if fits || !old(isOpen) then old(chain) else Rotated(maxFiles, old(chain)), line, stays)
    {
      hide Holds, Keeps;
      if !isOpen {
        return;
      }
      if currentSize + |line| > maxSize {
        Rotate(canOpen);
      }
      if isOpen {
        HeldLive(dir, chain);
        AppendToLive(dir, chain, line);
        AppendKeeps(maxFiles, maxSize, chain, written, line);
        dir := dir[Live := dir[Live] + [line]];
        chain, written := chain[0 := chain[0] + [line]], written + [line];
      }
      currentSize := currentSize + |line|;
    }
  }

  lemma LastSlotFreed(dir: Directory, chain: seq<Content>, n: nat)
    requires Holds(dir, chain) && |chain| <= n + 1 && n > 0
    ensures var kept := chain[..if |chain| <= n then |chain| else n];
      HoldsShifted(dir - {Name(n)}, kept, n) && (Name(n) in dir ==> n <= |kept|)
  {
  }

  lemma AllMoved(dir: Directory, chain: seq<Content>)
    requires HoldsShifted(dir, chain, 0)
    ensures Live !in dir && Holds(dir[Live := []], [[]] + chain)
  {
    var n := |chain| + 1;
    ReadyForLive(dir, chain, n);
    assert Backup(n) !in dir;
    assert dir - {Backup(n)} == dir && chain[..|chain|] == chain;
  }
}
