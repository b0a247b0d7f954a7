/** The volume as its operations change it: catalog, counters, allocation bitmap and extents-overflow records. */
module Volumes {
  import opened Nodes
  import opened Bitmap
  import opened Allocators
  import opened ExtentsKeys
  import opened Owners
  import opened Catalogs

  /** `Failed` stands for an error of a tree operation; what was done before it is not undone. */
  datatype Outcome = Done | NoSpace | Failed | Exists | NotFound | NotDirectory | NotRegular | NotEmpty | Corrupt

  /** A volume name takes at most this many units. */
  const MAX_LABEL := 255

  class Volume {
    const alc: Allocator
    const caseSensitive: bool
    /** The trees find the nodes and the room they need in their files; otherwise any step on them may fail, or take
        blocks first. */
    const roomy: bool
    var cat: Cat
    var nextId: nat
    var fileCount: nat
    var folderCount: nat
    var freeBlocks: nat
    var overflow: seq<Rec>
    var catFork: seq<Extent>
    /** The blocks of the special files, and of each file's fork. */
    ghost var sys: seq<Extent>
    ghost var forks: Forks

    /** Every used block is held once, and the overflow tree completes every fork descriptor. */
    ghost predicate SpaceOk()
      reads this`sys, this`forks, this`overflow, this`catFork, alc.bitmap
    {
      && alc.bits < U32 && alc.bits <= 8 * alc.bitmap.Length && BlocksOk(alc.Map(), sys, forks)
      && SpillsOk(overflow, forks, catFork) && CatForkOk(sys, catFork)
    }

    /** The volume between the steps of a transaction. */
    ghost predicate Sound()
      reads this, alc.bitmap
    {
      SpaceOk() && CatalogOk(cat, nextId, fileCount, folderCount) && FilesOk(cat, forks) && Flagged(cat, caseSensitive)
    }

    /** The volume between operations: the header's free-block count is up to date too. */
    ghost predicate Valid()
      reads this, alc.bitmap
    {
      Sound() && freeBlocks == Free(alc.Map())
    }

    lemma ValidIs()
      ensures Sound() <==>
        SpaceOk() && CatalogOk(cat, nextId, fileCount, folderCount) && FilesOk(cat, forks) &&
          Flagged(cat, caseSensitive)
      ensures Valid() <==> Sound() && freeBlocks == Free(alc.Map())
    {
      hide SpaceOk, CatalogOk, FilesOk, Flagged, Free;
    }

    /** On a case-sensitive volume every folder counts its subfolders besides its children. */
    lemma FolderCounts(k: Key)
      requires Sound() && k in cat && cat[k].Folder?
      ensures cat[k].valence == |Children(cat, cat[k].cnid)| && cat[k].counted == caseSensitive
      ensures caseSensitive ==> cat[k].folders == |Subfolders(cat, cat[k].cnid)|
    {
      hide SpaceOk, FilesOk, Children, Subfolders, Files, Folders, Linked, Rooted, IdsBelow;
      assert CountOk(cat, cat[k], map[], map[]);
    }

    /** A formatted volume: the root folder and nothing else. */
    constructor (alc: Allocator, caseSensitive: bool, volumeName: Name, ghost reserved: seq<Extent>, catRun: Extent)
      requires alc.bits < U32 && alc.bits <= 8 * alc.bitmap.Length && volumeName != [] && catRun in reserved
      requires catRun.count > 0
      requires BlocksOk(alc.Map(), reserved, map[])
      ensures this.alc == alc && this.caseSensitive == caseSensitive && Valid()
      ensures cat == FreshCat(volumeName, caseSensitive) && overflow == [] && nextId == FIRST_USER_ID
    {
      hide Valid, Sound, CatalogOk, FilesOk, BlocksOk, SpillsOk, CatForkOk, Free;
      this.alc, this.caseSensitive := alc, caseSensitive;
      cat := FreshCat(volumeName, caseSensitive);
      nextId, fileCount, folderCount := FIRST_USER_ID, 0, 0;
      overflow, catFork := [], [catRun];
      sys, forks := reserved, map[];
      new;
      freeBlocks := alc.FreeCount();
      FreshCatalog(cat, volumeName, caseSensitive);
      FreshSpace(alc.Map(), sys, catRun);
      ValidIs();
    }

    // ---- steps ----

    /** No item, thread, fork or overflow record uses this CNID, and nothing lies in it. */
    ghost predicate Unused(c: nat)
      reads this`cat, this`forks, this`overflow
    {
      && (forall k :: k in cat ==> k.parent != c && (IsItem(cat, k) ==> Id(cat[k]) != c))
      && c !in forks && Select(overflow, DataFork(c)) == []
    }

    /** A CNID that nothing on the volume uses. The counter is above every CNID in use afterwards, unless it wrapped. */
    method NextCnid() returns (id: nat)
      modifies this`nextId
      ensures id == if old(nextId) < FIRST_USER_ID then FIRST_USER_ID else old(nextId)
      ensures nextId == (id + 1) % U32
      ensures old(Sound()) ==> FIRST_USER_ID <= id < U32 && Unused(id) && (id < nextId <==> id != U32 - 1)
    {
      hide SpaceOk, CatalogOk, FilesOk, Unused;
      if Sound() {
        NextUnused();
      }
      id := if nextId < FIRST_USER_ID then FIRST_USER_ID else nextId;
      nextId := (id + 1) % U32;
    }

    lemma NextUnused()
      requires Sound()
      ensures FIRST_USER_ID <= nextId < U32 && Unused(nextId)
    {
      hide BlocksOk, CatForkOk, Owned, Asc, ForkSpilled, Counted, Select, Files, Folders, FileOk, ThreadLinked,
        ItemLinked, FolderAt;
      NothingUses(cat, nextId);
      assert nextId in forks ==> FileThread(cat, nextId);
      NoRecordsOf(overflow, forks, nextId);
    }

    /** A B-tree that runs out of nodes takes more blocks for its fork, any number of times; the catalog's fork
        spills into the overflow tree. */
    method GrowTrees() returns (st: Outcome)
      requires SpaceOk()
      modifies this`sys, this`catFork, this`overflow, alc.bitmap
      ensures st == Done ==> SpaceOk()
      ensures st.Done? || st.NoSpace?
      ensures roomy ==> st == Done && alc.Map() == old(alc.Map()) && overflow == old(overflow)
    {
      hide SpaceOk;
      var rounds: nat :| roomy ==> rounds == 0;
      for i := 0 to rounds
        invariant SpaceOk()
        invariant i == 0 ==> alc.Map() == old(alc.Map()) && overflow == old(overflow)
      {
        st := GrowFork();
        if st != Done {
          return;
        }
      }
      st := Done;
    }

    /** One such growth. */
    method GrowFork() returns (st: Outcome)
      requires SpaceOk()
      modifies this`sys, this`catFork, this`overflow, alc.bitmap
      ensures st == Done ==> SpaceOk()
      ensures st.Done? || st.NoSpace?
    {
      hide BlocksOk, SpillsOk, CatForkOk, AfterGrowth, Free, Ascending, Took, MarkedBy, Nonempty, Sum;
      var count: nat := *;
      ghost var u := alc.Map();
      var ok, runs := alc.AllocFragments(count);
      if !ok {
        return NoSpace;
      }
      GiveSys(u, alc.Map(), sys, forks, runs);
      CatalogNonempty(overflow, forks, catFork);
      CatForkMore(u, sys, forks, catFork, runs);
      if * {
        GrowCatalog(overflow, forks, catFork, runs);
        overflow := AfterGrowth(overflow, CatalogFork, catFork, runs);
        catFork := catFork + runs;
      }
      sys := sys + runs;
      return Done;
    }

    /** Inserts a catalog record. */
    method InsertRecord(k: Key, e: Entry) returns (st: Outcome)
      requires SpaceOk()
      modifies this`cat, this`sys, this`catFork, this`overflow, alc.bitmap
      ensures st == Done ==> SpaceOk() && cat == old(cat)[k := e]
      ensures st.Done? || st.NoSpace? || st.Failed?
      ensures roomy ==> st == Done && alc.Map() == old(alc.Map())
    {
      hide SpaceOk;
      st := GrowTrees();
      if st == Done {
        if !roomy {
          if * {
            return Failed;
          }
        }
        cat := cat[k := e];
      }
    }

    method DeleteRecord(k: Key) returns (st: Outcome)
      modifies this`cat
      ensures st == Done ==> cat == old(cat) - {k}
      ensures st.Done? || st.Failed?
      ensures roomy ==> st == Done
    {
      if !roomy {
        if * {
          return Failed;
        }
      }
      cat := cat - {k};
      return Done;
    }

    /** Adds `d` to the valence of the folder with CNID `parent`, and `fd` to its folder count if it keeps one:
        the folder is found through its thread. */
    method AdjustParentValence(parent: nat, d: int, fd: int) returns (st: Outcome)
      modifies this`cat
      ensures old(FolderAt(cat, parent) && FolderKey(cat, parent) in cat) ==>
        st == Done && cat == Patched(old(cat), parent, d, fd)
      ensures st == Done <==> old(Threaded(cat, parent))
      ensures st != Done ==> st == Corrupt && cat == old(cat)
    {
      if ThreadKey(parent) !in cat || !cat[ThreadKey(parent)].Thread? {
        return Corrupt;
      }
      var k := Key(cat[ThreadKey(parent)].parent, cat[ThreadKey(parent)].name);
      if k !in cat {
        return Corrupt;
      }
      cat := cat[k := PatchedEntry(cat[k], d, fd)];
      return Done;
    }

    method FreeRuns(runs: seq<Extent>)
      modifies alc.bitmap
      ensures forall m: nat :: m < alc.bits ==>
        alc.Test(m) == (old(alc.Test(m)) && !(Within(runs, m) && m / 8 < alc.bitmap.Length))
    {
      hide Within;
      NoneWithin();
      for i := 0 to |runs|
        invariant forall m: nat :: m < alc.bits ==>
          alc.Test(m) == (old(alc.Test(m)) && !(Within(runs[..i], m) && m / 8 < alc.bitmap.Length))
      {
        assert runs[..i + 1] == runs[..i] + [runs[i]];
        forall m: nat ensures Within(runs[..i + 1], m) <==> Within(runs[..i], m) || InRun(runs[i], m) {
          WithinNext(runs[..i], runs[i], m);
        }
        alc.FreeRun(runs[i].start, runs[i].count);
      }
      assert runs[..|runs|] == runs;
    }

    /** `flush`: the header's free-block count is what the bitmap says. */
    method Commit()
      requires Sound()
      modifies this`freeBlocks
      ensures Valid()
    {
      hide SpaceOk, CatalogOk, FilesOk, Free;
      freeBlocks := alc.FreeCount();
    }

    /** Inserts the record and the thread of a new item, and raises its parent's counts. */
    method AddItem(k: Key, e: Entry, fd: int, ghost next: nat) returns (st: Outcome)
      requires SpaceOk() && CatalogOk(cat, next, fileCount, folderCount)
      requires !e.Thread? && e.cnid == next && k !in cat && k.name != [] && FolderAt(cat, k.parent)
      modifies this`cat, this`sys, this`catFork, this`overflow, alc.bitmap
      ensures st == Done ==> SpaceOk() && Created(old(cat), cat, k, e, fd)
      ensures !Refused(st)
      ensures roomy ==> st == Done && alc.Map() == old(alc.Map())
    {
      hide SpaceOk, Linked, Rooted, IdsBelow, Counted, Files, Folders, Patched, FolderAt;
      ghost var cat0 := cat;
      st := InsertRecord(k, e);
      if st != Done {
        return;
      }
      st := InsertRecord(ThreadKey(e.cnid), Thread(k.parent, k.name, e.Folder?));
      if st != Done {
        return;
      }
      AddedFolder(cat0, next, k, e);
      st := AdjustParentValence(k.parent, 1, fd);
    }

    // ---- files ----

    /** Allocates the blocks of a new file, and records the runs its descriptor has no room for. */
    method NewFileFork(c: nat, nblocks: nat) returns (st: Outcome, runs: seq<Extent>)
      requires SpaceOk() && FilesOk(cat, forks) && ThreadKey(c) !in cat && FIRST_FILE <= c < U32
      modifies this`sys, this`catFork, this`overflow, this`forks, alc.bitmap
      ensures st == Done ==> SpaceOk() && c !in old(forks) && forks == old(forks)[c := runs]
      ensures st == Done ==> Sum(runs) == nblocks && |Inline(runs)| <= INLINE
      ensures st.Done? || st.NoSpace?
      ensures nblocks > old(Free(alc.Map())) ==> st == NoSpace
      ensures roomy ==> (st == Done <==> nblocks <= old(Free(alc.Map())))
      ensures roomy && st == Done ==> Free(alc.Map()) + nblocks == old(Free(alc.Map()))
    {
      hide BlocksOk, SpillsOk, CatForkOk, FilesOk, Free, Ascending, Took, MarkedBy, Groups, ReplaceAll, Inline,
        Overflow, Sum;
      ghost var u := alc.Map();
      var ok;
      ok, runs := alc.AllocFragments(nblocks);
      if !ok {
        return NoSpace, runs;
      }
      NewFork(u, alc.Map(), sys, cat, forks, overflow, catFork, c, runs, nblocks);
      TakenCount(u, alc.Map(), runs);
      forks := forks[c := runs];
      st := Done;
      if |runs| > INLINE {
        overflow := ReplaceAll(overflow, Groups(DataFork(c), Sum(Inline(runs)), Overflow(runs)));
        st := GrowTrees();
      }
    }

    /** Allocates the blocks of a new file and inserts its record and its thread. */
    method CreateFile(k: Key, nblocks: nat) returns (st: Outcome)
      requires Sound() && FolderAt(cat, k.parent) && k !in cat && k.name != []
      modifies this, alc.bitmap
      ensures st == Done ==> (Sound() <==> old(nextId) != U32 - 1)
      ensures st == Done ==>
        && old(nextId) !in old(forks) && old(nextId) in forks && forks == old(forks)[old(nextId) := forks[old(nextId)]]
        && Sum(forks[old(nextId)]) == nblocks
      ensures !Refused(st)
      ensures nblocks > old(Free(alc.Map())) ==> st == NoSpace
      ensures roomy ==> st == if nblocks <= old(Free(alc.Map())) then Done else NoSpace
      ensures roomy && st == Done ==> Free(alc.Map()) + nblocks == old(Free(alc.Map()))
      ensures st == Done ==> Flagged(cat, caseSensitive)
      ensures st == Done ==> Created(old(cat), cat, k, File(old(nextId), Pad(Inline(forks[old(nextId)])), nblocks), 0)
    {
      hide Sound, SpaceOk, CatalogOk, FilesOk, Flagged, Created, FolderAt, Sum, Pad, Inline, AddU32, Free;
      ValidIs();
      ghost var cat0, forks0 := cat, forks;
      IdIsNext(cat, nextId, fileCount, folderCount);
      var c := NextCnid();
      var runs;
      st, runs := NewFileFork(c, nblocks);
      if st != Done {
        return;
      }
      var e := File(c, Pad(Inline(runs)), nblocks);
      st := AddItem(k, e, 0, c);
      if st != Done {
        return;
      }
      FileMade(cat0, cat, c, fileCount, folderCount, forks0, k, e, runs);
      CreateFlagged(cat0, cat, k, e, 0, caseSensitive);
      fileCount := AddU32(fileCount, 1);
      ValidIs();
    }

    /** Gives back the blocks of a file, and drops its overflow records. */
    method FreeFork(k: Key)
      requires k in cat && cat[k].File? && SpaceOk() && FilesOk(cat, forks)
      modifies this`overflow, this`forks, alc.bitmap
      ensures cat[k].cnid in old(forks) && forks == old(forks) - {cat[k].cnid} && SpaceOk()
      ensures Free(alc.Map()) == old(Free(alc.Map())) + Sum(old(forks)[cat[k].cnid])
    {
      hide FilesOk, BlocksOk, SpillsOk, CatForkOk, Within, Others, Select, Used, AllRuns, Free, Sum;
      var e := cat[k];
      ghost var u := alc.Map();
      FileForkIs(cat, forks, overflow, catFork, k);
      FreeRuns(Used(e.inline));
      var freed := AllRuns(Select(overflow, DataFork(e.cnid)));
      overflow := Others(overflow, DataFork(e.cnid));
      FreeRuns(freed);
      ForkFreed(u, alc.Map(), sys, forks, e.cnid, Used(e.inline), freed);
      DropForkRecords(old(overflow), forks, catFork, e.cnid);
      forks := forks - {e.cnid};
    }

    /** Frees the blocks of a file and removes its record, its overflow records and its thread. */
    method RemoveFile(k: Key) returns (st: Outcome)
      requires Sound() && k in cat && cat[k].File?
      modifies this, alc.bitmap
      ensures st == Done ==> Sound() && nextId == old(nextId)
      ensures st == Done ==> Dropped(old(cat), cat, k) && FolderAt(cat, k.parent) && k !in cat
      ensures st == Done ==> forks == old(forks) - {old(cat)[k].cnid}
      ensures !Refused(st) && (st == Done || st == Failed) && (roomy ==> st == Done)
      ensures old(cat)[k].cnid in old(forks)
      ensures Free(alc.Map()) == old(Free(alc.Map())) + Sum(old(forks)[old(cat)[k].cnid])
    {
      hide Sound, SpaceOk, CatalogOk, FilesOk, Flagged, Dropped, FolderAt, FolderKey, Patched, Removed, AddU32, Free,
        Sum;
      ValidIs();
      var e := cat[k];
      ghost var cat0 := cat;
      FileUnmade(cat, nextId, fileCount, folderCount, forks, k);
      FreeFork(k);
      st := DeleteRecord(k);
      if st != Done {
        return;
      }
      st := DeleteRecord(ThreadKey(e.cnid));
      if st != Done {
        return;
      }
      TwoGone(cat0, k);
      fileCount := AddU32(fileCount, -1);
      st := AdjustParentValence(k.parent, -1, 0);
      DropFlagged(cat0, cat, k, caseSensitive);
      ValidIs();
    }

    // ---- operations ----

    /** The folder that holds the last component of a path, and that component. */
    method ResolveParent(parts: seq<Name>) returns (st: Outcome, parent: nat, name: Name)
      requires Sound() && forall i :: 0 <= i < |parts| ==> parts[i] != []
      ensures st == Done <==> Resolves(cat, parts)
      ensures st == Done ==> FolderAt(cat, parent) && Key(parent, name) == Target(cat, parts) && name != []
      ensures st != Done ==> Refused(st) && st == PathError(cat, parts)
    {
      hide Linked, Rooted, IdsBelow, Counted, Files, Folders, Children, Subfolders, FilesOk, BlocksOk, SpillsOk,
        CatForkOk, Patched, AfterGrowth, Free, Within, Ascending, Took, MarkedBy, Groups, ReplaceAll, Others,
        Select, Pad, Inline, Sum, Used, AllRuns;
      if parts == [] {
        return Exists, 0, [];
      }
      parent, name := ROOT_FOLDER, parts[|parts| - 1];
      ghost var dirs := parts[..|parts| - 1];
      assert dirs[0..] == dirs;
      RootThere(cat);
      for i := 0 to |parts| - 1
        invariant FolderAt(cat, parent) && Walk(cat, ROOT_FOLDER, dirs) == Walk(cat, parent, dirs[i..])
        invariant WalkError(cat, ROOT_FOLDER, dirs) == WalkError(cat, parent, dirs[i..])
      {
        assert dirs[i..][1..] == dirs[i + 1..] && dirs[i] == parts[i];
        var k := Key(parent, parts[i]);
        if k !in cat {
          return NotFound, 0, [];
        }
        if !cat[k].Folder? {
          return NotDirectory, 0, [];
        }
        FolderItem(cat, k);
        parent := cat[k].cnid;
      }
      ParentId(cat, nextId, parent);
      return Done, parent, name;
    }

    /** Creates the regular file, or replaces the one that is there. */
    method WriteFile(parts: seq<Name>, nblocks: nat) returns (st: Outcome)
      requires Valid() && forall i :: 0 <= i < |parts| ==> parts[i] != []
      modifies this, alc.bitmap
      ensures st == Done ==> (Valid() <==> old(nextId) != U32 - 1)
      ensures st == Done ==> Written(old(cat), old(forks), cat, forks, Target(old(cat), parts), old(nextId), nblocks)
      ensures Refused(st) <==> !CanWrite(old(cat), parts)
      ensures Refused(st) ==> Valid() && cat == old(cat) && forks == old(forks)
      ensures Refused(st) ==> st == if Resolves(old(cat), parts) then Exists else PathError(old(cat), parts)
      ensures roomy && CanWrite(old(cat), parts) ==>
        var room := old(freeBlocks) + BlocksAt(old(cat), old(forks), Target(old(cat), parts));
        if nblocks <= room then st == Done && freeBlocks + nblocks == room else st == NoSpace
    {
      hide Valid, Sound, SpaceOk, CatalogOk, FilesOk, Flagged, Created, Dropped, FolderAt, Free, Walk, Resolves,
        Target, Sum, Pad, Inline, PathError;
      ValidIs();
      var parent, name;
      st, parent, name := ResolveParent(parts);
      if st != Done {
        return;
      }
      var k := Key(parent, name);
      if k in cat {
        if !cat[k].File? {
          return Exists;
        }
        st := RemoveFile(k);
        if st != Done {
          return;
        }
        Commit();
        ValidIs();
      }
      st := CreateFile(k, nblocks);
      if st != Done {
        return;
      }
      ValidIs();
      freeBlocks := alc.FreeCount();
      ValidIs();
    }

    method DeleteFile(parts: seq<Name>) returns (st: Outcome)
      requires Valid() && forall i :: 0 <= i < |parts| ==> parts[i] != []
      modifies this, alc.bitmap
      ensures st == Done ==> Valid() && nextId == old(nextId)
      ensures st == Done ==>
        var k := Target(old(cat), parts); Dropped(old(cat), cat, k) && forks == old(forks) - {Id(old(cat)[k])}
      ensures Refused(st) <==> !CanDeleteFile(old(cat), parts)
      ensures Refused(st) ==> Valid() && cat == old(cat) && forks == old(forks)
      ensures Refused(st) ==>
        st ==
          if !Resolves(old(cat), parts) then PathError(old(cat), parts)
          else if Target(old(cat), parts) !in old(cat) then NotFound else NotRegular
      ensures roomy && CanDeleteFile(old(cat), parts) ==>
        st == Done &&
        freeBlocks == old(freeBlocks) + BlocksAt(old(cat), old(forks), Target(old(cat), parts))
    {
      hide Valid, Sound, SpaceOk, CatalogOk, FilesOk, Flagged, Dropped, FolderAt, Free, Walk, Resolves, Target, Sum,
        PathError;
      ValidIs();
      var parent, name;
      st, parent, name := ResolveParent(parts);
      if st != Done {
        return;
      }
      var k := Key(parent, name);
      if k !in cat {
        return NotFound;
      }
      if !cat[k].File? {
        return NotRegular;
      }
      st := RemoveFile(k);
      if st == Done {
        Commit();
        ValidIs();
      }
    }

    method MkDir(parts: seq<Name>) returns (st: Outcome)
      requires Valid() && forall i :: 0 <= i < |parts| ==> parts[i] != []
      modifies this, alc.bitmap
      ensures st == Done ==> (Valid() <==> old(nextId) != U32 - 1) && nextId == (old(nextId) + 1) % U32
      ensures st == Done ==>
        && Created(old(cat), cat, Target(old(cat), parts), Folder(old(nextId), 0, caseSensitive, 0), 1)
        && forks == old(forks)
      ensures Refused(st) <==> !CanMkDir(old(cat), parts)
      ensures Refused(st) ==> Valid() && cat == old(cat) && forks == old(forks)
      ensures Refused(st) ==> st == if Resolves(old(cat), parts) then Exists else PathError(old(cat), parts)
      ensures roomy && CanMkDir(old(cat), parts) ==> st == Done && freeBlocks == old(freeBlocks)
    {
      hide Valid, Sound, SpaceOk, CatalogOk, FilesOk, Flagged, Created, Dropped, FolderAt, Free, Walk, Resolves,
        Target, AddU32, Removed, HasChild, Patched, FolderKey, PathError;
      ValidIs();
      var parent, name;
      st, parent, name := ResolveParent(parts);
      if st != Done {
        return;
      }
      var k := Key(parent, name);
      if k in cat {
        return Exists;
      }
      ghost var cat0 := cat;
      var c := NextCnid();
      IdIsNext(cat0, old(nextId), fileCount, folderCount);
      var e := Folder(c, 0, caseSensitive, 0);
      st := AddItem(k, e, 1, c);
      if st != Done {
        return;
      }
      DirMade(cat0, cat, c, fileCount, folderCount, forks, k, e);
      CreateFlagged(cat0, cat, k, e, 1, caseSensitive);
      folderCount := AddU32(folderCount, 1);
      freeBlocks := alc.FreeCount();
      ValidIs();
    }

    method DeleteDir(parts: seq<Name>) returns (st: Outcome)
      requires Valid() && forall i :: 0 <= i < |parts| ==> parts[i] != []
      modifies this, alc.bitmap
      ensures st == Done ==> Valid() && nextId == old(nextId)
      ensures st == Done ==> Dropped(old(cat), cat, Target(old(cat), parts)) && forks == old(forks)
      ensures Refused(st) <==> !CanDeleteDir(old(cat), parts)
      ensures Refused(st) ==> Valid() && cat == old(cat) && forks == old(forks)
      ensures Refused(st) ==>
        st ==
          if !Resolves(old(cat), parts) then PathError(old(cat), parts)
          else if Target(old(cat), parts) !in old(cat) then NotFound
          else if !old(cat)[Target(old(cat), parts)].Folder? then NotDirectory else NotEmpty
      ensures roomy && CanDeleteDir(old(cat), parts) ==> st == Done && freeBlocks == old(freeBlocks)
    {
      hide Valid, Sound, SpaceOk, CatalogOk, FilesOk, Flagged, Created, Dropped, FolderAt, Free, Walk, Resolves,
        Target, AddU32, Removed, HasChild, Patched, FolderKey, PathError;
      ValidIs();
      var parent, name;
      st, parent, name := ResolveParent(parts);
      if st != Done {
        return;
      }
      var k := Key(parent, name);
      if k !in cat {
        return NotFound;
      }
      if !cat[k].Folder? {
        return NotDirectory;
      }
      var c := cat[k].cnid;
      if HasChild(cat, c) {
        return NotEmpty;
      }
      ghost var cat0 := cat;
      DirUnmade(cat, nextId, fileCount, folderCount, forks, k);
      st := DeleteRecord(k);
      if st != Done {
        return;
      }
      st := DeleteRecord(ThreadKey(c));
      if st != Done {
        return;
      }
      folderCount := AddU32(folderCount, -1);
      TwoGone(cat0, k);
      st := AdjustParentValence(parent, -1, -1);
      DropFlagged(cat0, cat, k, caseSensitive);
      ValidIs();
      Commit();
      ValidIs();
    }

    /** Moves a file or folder to a new parent and name; its CNID and fork stay. */
    method Rename(oldParts: seq<Name>, newParts: seq<Name>) returns (st: Outcome)
      requires Valid() && forall i :: 0 <= i < |oldParts| ==> oldParts[i] != []
      requires forall i :: 0 <= i < |newParts| ==> newParts[i] != []
      modifies this, alc.bitmap
      ensures st == Done ==> Valid() && nextId == old(nextId) && forks == old(forks)
      ensures st == Done ==> Renamed(old(cat), cat, Target(old(cat), oldParts), Target(old(cat), newParts))
      ensures Refused(st) <==> !CanRename(old(cat), oldParts, newParts)
      ensures Refused(st) ==> Valid() && cat == old(cat) && forks == old(forks)
      ensures Refused(st) ==>
        st ==
          if !Resolves(old(cat), oldParts) then PathError(old(cat), oldParts)
          else if !Resolves(old(cat), newParts) then PathError(old(cat), newParts)
          else if Target(old(cat), oldParts) !in old(cat) then NotFound else Exists
      ensures roomy && CanRename(old(cat), oldParts, newParts) && IsItem(old(cat), Target(old(cat), oldParts)) ==>
        st == Done && freeBlocks == old(freeBlocks)
    {
      hide Valid, Sound, SpaceOk, CatalogOk, FilesOk, Flagged, Free, Walk, Resolves, Target, Moved, FolderAt,
        FolderKey, Patched, Renamed, PathError;
      ValidIs();
      var oparent, oname, nparent, nname;
      st, oparent, oname := ResolveParent(oldParts);
      if st != Done {
        return;
      }
      st, nparent, nname := ResolveParent(newParts);
      if st != Done {
        return;
      }
      var k, to := Key(oparent, oname), Key(nparent, nname);
      if k !in cat {
        return NotFound;
      }
      if to in cat {
        return Exists;
      }
      if cat[k].Thread? {
        return Corrupt;
      }
      st := MoveItem(k, to);
    }

    /** What a path leads to is a file or a folder, never a thread. */
    lemma NamedIsItem(parts: seq<Name>)
      requires Sound() && Resolves(cat, parts) && Target(cat, parts) in cat
      requires forall i :: 0 <= i < |parts| ==> parts[i] != []
      ensures IsItem(cat, Target(cat, parts))
    {
      hide SpaceOk, FilesOk, Flagged, Walk, Rooted, IdsBelow, Counted, Files, Folders;
      var k := Target(cat, parts);
      assert cat[k].Thread? ==> ThreadLinked(cat, k);
    }

    /** Puts an item under a new key, and adjusts the counts of its parents when they differ. */
    method MoveItem(k: Key, to: Key) returns (st: Outcome)
      requires Valid() && k in cat && !cat[k].Thread? && FolderAt(cat, k.parent)
      requires to !in cat && to.name != [] && FolderAt(cat, to.parent)
      modifies this, alc.bitmap
      ensures st == Done ==> Valid() && nextId == old(nextId) && forks == old(forks) && Renamed(old(cat), cat, k, to)
      ensures st.Done? || st.NoSpace? || st.Failed?
      ensures roomy ==> st == Done && freeBlocks == old(freeBlocks)
    {
      hide Valid, Sound, SpaceOk, CatalogOk, FilesOk, Flagged, Free, Moved, FolderAt, FolderKey, Patched, Renamed;
      ValidIs();
      var e := cat[k];
      RenameAdjusts(cat, nextId, fileCount, folderCount, forks, k, to);
      st := Rekey(k, to);
      if st != Done {
        return;
      }
      if k.parent != to.parent {
        var fd := FolderWeight(e);
        st := AdjustParentValence(k.parent, -1, -fd);
        st := AdjustParentValence(to.parent, 1, fd);
      }
      RenameFlagged(old(cat), cat, k, to, caseSensitive);
      ValidIs();
      Commit();
      ValidIs();
    }

    /** Removes a record and its thread, and inserts them again under the new key. */
    method Rekey(k: Key, to: Key) returns (st: Outcome)
      requires SpaceOk() && IsItem(cat, k)
      modifies this`cat, this`sys, this`catFork, this`overflow, alc.bitmap
      ensures st == Done ==> SpaceOk() && cat == Moved(old(cat), k, to)
      ensures st.Done? || st.NoSpace? || st.Failed?
      ensures roomy ==> st == Done && alc.Map() == old(alc.Map())
    {
      hide SpaceOk, Removed;
      var e := cat[k];
      st := DeleteRecord(k);
      if st != Done {
        return;
      }
      st := DeleteRecord(ThreadKey(Id(e)));
      if st != Done {
        return;
      }
      TwoGone(old(cat), k);
      st := InsertRecord(to, e);
      if st != Done {
        return;
      }
      st := InsertRecord(ThreadKey(Id(e)), Thread(to.parent, to.name, e.Folder?));
    }

    /** Renames the volume: the root folder's record gets the new name. */
    method SetLabel(volumeName: Name) returns (st: Outcome)
      requires Valid()
      modifies this, alc.bitmap
      ensures st == Corrupt <==> volumeName == [] || |volumeName| > MAX_LABEL
      ensures st == Corrupt ==> Valid() && cat == old(cat) && forks == old(forks)
      ensures st.Done? || st.NoSpace? || st.Failed? || st.Corrupt?
      ensures roomy && 0 < |volumeName| <= MAX_LABEL ==> st == Done && freeBlocks == old(freeBlocks)
      ensures st == Done ==> Valid() && nextId == old(nextId) && forks == old(forks)
      ensures st == Done ==>
        && Key(ROOT_PARENT, volumeName) in cat && cat[Key(ROOT_PARENT, volumeName)].Folder?
        && cat[Key(ROOT_PARENT, volumeName)].cnid == ROOT_FOLDER
      ensures st == Done ==>
        cat == old(cat) || exists k: Key ::
          IsItem(old(cat), k) && k.parent == ROOT_PARENT && cat == Moved(old(cat), k, Key(ROOT_PARENT, volumeName))
    {
      hide Linked, Rooted, IdsBelow, Counted, Files, Folders, Children, Subfolders, FilesOk, BlocksOk, SpillsOk,
        CatForkOk, Patched, AfterGrowth, Free, Within, Ascending, Took, MarkedBy, Groups, ReplaceAll, Others,
        Select, Pad, Inline, Sum, Used, AllRuns;
      if volumeName == [] || |volumeName| > MAX_LABEL {
        return Corrupt;
      }
      ghost var cat0 := cat;
      var root := RootKey(cat, nextId);
      var k :| k in cat && k.parent == ROOT_PARENT;
      var to := Key(ROOT_PARENT, volumeName);
      RootIs(cat, nextId, k, to);
      if k.name == volumeName {
        return Done;
      }
      st := Rekey(k, to);
      if st != Done {
        return;
      }
      MoveAdjusts(cat0, nextId, fileCount, folderCount, forks, k, to);
      RemoveFlagged(cat0, k, caseSensitive);
      AddFlagged(Removed(cat0, k), to, cat0[k], caseSensitive);
      Commit();
    }
  }

  /** The operation does not apply: nothing was done. */
  predicate Refused(st: Outcome) {
    st.Exists? || st.NotFound? || st.NotDirectory? || st.NotRegular? || st.NotEmpty?
  }

  /** The CNID of the folder a path leads to from folder `c`; 0 if there is none. */
  function Walk(cat: Cat, c: nat, parts: seq<Name>): nat
    decreases |parts|
  {
    if parts == [] then c
    else
      var k := Key(c, parts[0]);
      if k in cat && cat[k].Folder? then Walk(cat, cat[k].cnid, parts[1..]) else 0
  }

  /** What is wrong with the first component of a path that leads nowhere: it is not there, or it is no folder. */
  function WalkError(cat: Cat, c: nat, parts: seq<Name>): Outcome
    decreases |parts|
  {
    if parts == [] then Done
    else
      var k := Key(c, parts[0]);
      if k !in cat then NotFound
      else if cat[k].Folder? then WalkError(cat, cat[k].cnid, parts[1..])
      else NotDirectory
  }

  /** The answer to a path that does not resolve. */
  function PathError(cat: Cat, parts: seq<Name>): Outcome {
    if parts == [] then Exists else WalkError(cat, ROOT_FOLDER, parts[..|parts| - 1])
  }

  /** The path has a last component, and the components before it lead to a folder. */
  predicate Resolves(cat: Cat, parts: seq<Name>) {
    parts != [] && Walk(cat, ROOT_FOLDER, parts[..|parts| - 1]) != 0
  }

  /** The key a path stands for. */
  function Target(cat: Cat, parts: seq<Name>): Key {
    if parts == [] then Key(0, []) else Key(Walk(cat, ROOT_FOLDER, parts[..|parts| - 1]), parts[|parts| - 1])
  }

  predicate CanWrite(cat: Cat, parts: seq<Name>) {
    Resolves(cat, parts) && (Target(cat, parts) in cat ==> cat[Target(cat, parts)].File?)
  }

  predicate CanDeleteFile(cat: Cat, parts: seq<Name>) {
    Resolves(cat, parts) && Target(cat, parts) in cat && cat[Target(cat, parts)].File?
  }

  predicate CanMkDir(cat: Cat, parts: seq<Name>) {
    Resolves(cat, parts) && Target(cat, parts) !in cat
  }

  predicate CanDeleteDir(cat: Cat, parts: seq<Name>) {
    Resolves(cat, parts) && Target(cat, parts) in cat && cat[Target(cat, parts)].Folder? &&
      !HasChild(cat, cat[Target(cat, parts)].cnid)
  }

  predicate CanRename(cat: Cat, oldParts: seq<Name>, newParts: seq<Name>) {
    Resolves(cat, oldParts) && Resolves(cat, newParts) && Target(cat, oldParts) in cat && Target(cat, newParts) !in cat
  }

  /** The file at `k`, new or replaced, has the CNID `c` and a fork of `nblocks` blocks; nothing else changed but
      counts. */
  ghost predicate Written(cat0: Cat, forks0: Forks, cat1: Cat, forks1: Forks, k: Key, c: nat, nblocks: nat) {
    && c in forks1 && Sum(forks1[c]) == nblocks
    && var e := File(c, Pad(Inline(forks1[c])), nblocks);
       if k in cat0 then
         && cat0[k].File? && forks1 == (forks0 - {cat0[k].cnid})[c := forks1[c]]
         && exists mid: Cat :: Dropped(cat0, mid, k) && Created(mid, cat1, k, e, 0)
       else forks1 == forks0[c := forks1[c]] && Created(cat0, cat1, k, e, 0)
  }

  /** The item at `k` stands at `to`, and the counts of the two parents are adjusted when they differ. */
  ghost predicate Renamed(cat0: Cat, cat1: Cat, k: Key, to: Key) {
    && IsItem(cat0, k)
    && var m, w := Moved(cat0, k, to), FolderWeight(cat0[k]);
       if k.parent == to.parent then cat1 == m
       else
         && FolderAt(m, k.parent) && FolderKey(m, k.parent) in m
         && var m1 := Patched(m, k.parent, -1, -w);
            FolderAt(m1, to.parent) && FolderKey(m1, to.parent) in m1 && cat1 == Patched(m1, to.parent, 1, w)
  }

  /** Blocks of the file at a key; 0 if there is none. */
  function BlocksAt(cat: Cat, forks: Forks, k: Key): nat {
    if k in cat && cat[k].File? && cat[k].cnid in forks then Sum(forks[cat[k].cnid]) else 0
  }

  /** The CNID has a thread, and the record the thread names is there. */
  predicate Threaded(cat: Cat, c: nat) {
    ThreadKey(c) in cat && cat[ThreadKey(c)].Thread? && Key(cat[ThreadKey(c)].parent, cat[ThreadKey(c)].name) in cat
  }

  lemma CreateFlagged(cat0: Cat, cat1: Cat, k: Key, e: Entry, fd: int, counted: bool)
    requires Flagged(cat0, counted) && (e.Folder? ==> e.counted == counted) && Created(cat0, cat1, k, e, fd)
    ensures Flagged(cat1, counted)
  {
    hide Added, Patched, Flagged;
    AddFlagged(cat0, k, e, counted);
    PatchFlagged(Added(cat0, k, e), k.parent, 1, fd, counted);
  }

  lemma DropFlagged(cat0: Cat, cat1: Cat, k: Key, counted: bool)
    requires Flagged(cat0, counted) && Dropped(cat0, cat1, k)
    ensures Flagged(cat1, counted)
  {
    hide Removed, Patched, Flagged;
    RemoveFlagged(cat0, k, counted);
    PatchFlagged(Removed(cat0, k), k.parent, -1, -FolderWeight(cat0[k]), counted);
  }

  lemma RenameFlagged(cat0: Cat, cat1: Cat, k: Key, to: Key, counted: bool)
    requires Flagged(cat0, counted) && Renamed(cat0, cat1, k, to)
    ensures Flagged(cat1, counted)
  {
    hide Added, Removed, Patched, Flagged;
    var m, w := Moved(cat0, k, to), FolderWeight(cat0[k]);
    KeptFlag(cat0, k, counted);
    RemoveFlagged(cat0, k, counted);
    AddFlagged(Removed(cat0, k), to, cat0[k], counted);
    if k.parent != to.parent {
      PatchFlagged(m, k.parent, -1, -w, counted);
      PatchFlagged(Patched(m, k.parent, -1, -w), to.parent, 1, w, counted);
    }
  }

  lemma KeptFlag(cat: Cat, k: Key, counted: bool)
    requires Flagged(cat, counted) && k in cat
    ensures cat[k].Folder? ==> cat[k].counted == counted
  {
  }

  predicate HasChild(cat: Cat, c: nat) {
    exists k :: k in cat && k.parent == c && !cat[k].Thread?
  }

  ghost predicate CatForkOk(sys: seq<Extent>, catFork: seq<Extent>) {
    Apart(catFork) && forall i: int :: Within(catFork, i) ==> Within(sys, i)
  }

  ghost predicate FileOk(e: Entry, forks: Forks)
    requires e.File?
  {
    e.cnid in forks && e.inline == Pad(Inline(forks[e.cnid])) && e.total == Sum(forks[e.cnid])
  }

  /** The forks are exactly those of the catalog's files, and each file's record holds the first eight extents. */
  ghost predicate FilesOk(cat: Cat, forks: Forks) {
    && (forall k :: k in cat && cat[k].File? ==> FileOk(cat[k], forks))
    && (forall c: nat :: c in forks ==> FileThread(cat, c))
  }

  predicate FileThread(cat: Cat, c: nat) {
    ThreadKey(c) in cat && cat[ThreadKey(c)].Thread? && !cat[ThreadKey(c)].folder
  }

  /** The catalog with a new item and its thread, and the parent's counts raised. */
  ghost predicate Created(cat0: Cat, cat1: Cat, k: Key, e: Entry, fd: int) {
    var a := Added(cat0, k, e);
    FolderAt(a, k.parent) && FolderKey(a, k.parent) in a && cat1 == Patched(a, k.parent, 1, fd)
  }

  /** The catalog without an item and its thread, and the parent's counts lowered. */
  ghost predicate Dropped(cat0: Cat, cat1: Cat, k: Key) {
    && k in cat0
    && var a := Removed(cat0, k);
    FolderAt(a, k.parent) && FolderKey(a, k.parent) in a && cat1 == Patched(a, k.parent, -1, -FolderWeight(cat0[k]))
  }

  // ---- the formatted volume ----

  /** The root folder and its thread. */
  function FreshCat(volumeName: Name, counted: bool): Cat {
    map[Key(ROOT_PARENT, volumeName) := Folder(ROOT_FOLDER, 0, counted, 0),
      ThreadKey(ROOT_FOLDER) := Thread(ROOT_PARENT, volumeName, true)]
  }

  lemma FreshCatalog(cat: Cat, volumeName: Name, counted: bool)
    requires volumeName != []
    requires cat == FreshCat(volumeName, counted)
    ensures CatalogOk(cat, FIRST_USER_ID, 0, 0) && FilesOk(cat, map[])
  {
    FreshCounts(cat, volumeName, counted);
    hide Children, Subfolders, Files, Folders;
    assert |{Key(ROOT_PARENT, volumeName)}| == 1;
  }

  lemma FreshCounts(cat: Cat, volumeName: Name, counted: bool)
    requires volumeName != []
    requires cat == FreshCat(volumeName, counted)
    ensures Children(cat, ROOT_FOLDER) == {} && Subfolders(cat, ROOT_FOLDER) == {}
    ensures Files(cat) == {} && Folders(cat) == {Key(ROOT_PARENT, volumeName)}
  {
  }

  lemma FreshSpace(u: seq<bool>, sys: seq<Extent>, catRun: Extent)
    requires |u| < U32 && BlocksOk(u, sys, map[]) && catRun in sys && catRun.count > 0
    ensures SpillsOk([], map[], [catRun]) && CatForkOk(sys, [catRun])
  {
    var catFork := [catRun];
    var x :| 0 <= x < |sys| && sys[x] == catRun;
    forall i: int | Within(catFork, i) ensures Within(sys, i) {
      assert InRun(sys[x], i);
    }
    assert InRun(catRun, catRun.start + catRun.count - 1);
    assert Within(sys, catRun.start + catRun.count - 1) by { assert InRun(sys[x], catRun.start + catRun.count - 1); }
    assert catFork[1..] == [];
    assert Inline(catFork) == catFork && Overflow(catFork) == [];
  }

  // ---- space ----

  lemma NoneWithin()
    ensures forall i: int :: !Within([], i)
    ensures forall runs: seq<Extent>, i: int :: !Within(runs[..0], i)
  {
  }

  lemma CatForkMore(u: seq<bool>, sys: seq<Extent>, forks: Forks, catFork: seq<Extent>, runs: seq<Extent>)
    requires |u| < U32 && BlocksOk(u, sys, forks) && CatForkOk(sys, catFork) && Nonempty(catFork)
    requires Took(u, runs) && Ascending(runs, |u|)
    ensures CatForkOk(sys + runs, catFork) && CatForkOk(sys + runs, catFork + runs)
    ensures Nonempty(catFork + runs) && Sum(catFork + runs) < U32
  {
    AscendingApart(runs, |u|);
    AscendingNonempty(runs, |u|);
    hide Within, Took, Ascending, Apart;
    forall i: int ensures Within(sys + runs, i) <==> Within(sys, i) || Within(runs, i) {
      WithinCat(sys, runs, i);
    }
    forall i: int ensures Within(catFork + runs, i) <==> Within(catFork, i) || Within(runs, i) {
      WithinCat(catFork, runs, i);
    }
    forall i: int | Within(catFork, i) ensures 0 <= i < |u| && !Within(runs, i) {
      assert Within(sys, i);
      if Within(runs, i) {
        TookOne(u, runs, i);
      }
    }
    ApartCat(catFork, runs);
    var w := ApartSum(catFork + runs, |u|);
    BlocksIsSum(catFork + runs);
  }

  lemma CatalogNonempty(overflow: seq<Rec>, forks: Forks, catFork: seq<Extent>)
    requires SpillsOk(overflow, forks, catFork)
    ensures Nonempty(catFork)
  {
  }

  lemma NothingUses(cat: Cat, next: nat)
    requires Linked(cat) && Rooted(cat) && IdsBelow(cat, next)
    ensures FIRST_USER_ID <= next < U32
    ensures ThreadKey(next) !in cat
    ensures forall k :: k in cat ==> k.parent != next && (IsItem(cat, k) ==> Id(cat[k]) != next)
  {
    IdUnused(cat, next, next);
    forall k | k in cat ensures k.parent != next {
      if cat[k].Thread? {
        ThreadIsKeyed(cat, k);
      } else if Id(cat[k]) != ROOT_FOLDER {
        ParentId(cat, next, k.parent);
      } else {
        assert IsItem(cat, k);
      }
    }
  }

  lemma AscendingNonempty(runs: seq<Extent>, end: int)
    requires Ascending(runs, end)
    ensures Nonempty(runs)
  {
  }

  /** The blocks just allocated, as a new file's fork. */
  lemma NewFork(u: seq<bool>, v: seq<bool>, sys: seq<Extent>, cat: Cat, forks: Forks, overflow: seq<Rec>,
      catFork: seq<Extent>, c: nat, runs: seq<Extent>, count: nat)
    requires |u| < U32 && BlocksOk(u, sys, forks) && SpillsOk(overflow, forks, catFork)
    requires FilesOk(cat, forks) && ThreadKey(c) !in cat && FIRST_FILE <= c < U32
    requires Took(u, runs) && MarkedBy(u, v, runs) && Ascending(runs, |u|) && Blocks(runs) == count
    ensures c !in forks && BlocksOk(v, sys, forks[c := runs])
    ensures SpillsOk(if |runs| > INLINE then ReplaceAll(overflow,
      Groups(DataFork(c), Sum(Inline(runs)), Overflow(runs))) else overflow, forks[c := runs], catFork)
    ensures Sum(runs) == count && |Inline(runs)| <= INLINE
  {
    hide Within, Took, MarkedBy, Ascending, SpillsOk, BlocksOk, Blocks, Inline, FileOk, AfterGrowth;
    assert c in forks ==> FileThread(cat, c);
    RunsTaken(u, runs);
    GiveFork(u, v, sys, forks, c, runs);
    SpillFork(overflow, forks, catFork, c, runs);
    FromNothing(overflow, DataFork(c), runs);
  }

  lemma RunsTaken(u: seq<bool>, runs: seq<Extent>)
    requires |u| < U32 && Ascending(runs, |u|)
    ensures Nonempty(runs) && Sum(runs) == Blocks(runs) < U32
  {
    AscendingApart(runs, |u|);
    AscendingNonempty(runs, |u|);
    hide Ascending, Apart, Within, Nonempty, Sum, Blocks;
    var w := ApartSum(runs, |u|);
    BlocksIsSum(runs);
  }

  /** The overflow records of a new fork. */
  lemma FromNothing(recs: seq<Rec>, f: Fork, runs: seq<Extent>)
    ensures |Inline(runs)| <= INLINE
    ensures AfterGrowth(recs, f, [], runs) ==
      if |runs| > INLINE then ReplaceAll(recs, Groups(f, Sum(Inline(runs)), Overflow(runs))) else recs
  {
    hide ReplaceAll, Groups, Sum;
    assert [] + runs == runs;
  }

  lemma ForkFreed(u: seq<bool>, v: seq<bool>, sys: seq<Extent>, forks: Forks, c: nat, a: seq<Extent>, b: seq<Extent>)
    requires BlocksOk(u, sys, forks) && c in forks && forks[c] == a + b
    requires |v| == |u| && forall i :: 0 <= i < |u| ==> (v[i] <==> u[i] && !Within(a, i) && !Within(b, i))
    ensures BlocksOk(v, sys, forks - {c}) && Free(v) == Free(u) + Sum(forks[c])
  {
    hide Within, BlocksOk, Free, Sum;
    forall i: int ensures Within(a + b, i) <==> Within(a, i) || Within(b, i) {
      WithinCat(a, b, i);
    }
    TakeFork(u, v, sys, forks, c);
    ForkCount(u, v, sys, forks, c);
    BlocksIsSum(forks[c]);
  }

  // ---- files and forks ----

  lemma FileForkIs(cat: Cat, forks: Forks, overflow: seq<Rec>, catFork: seq<Extent>, k: Key)
    requires FilesOk(cat, forks) && SpillsOk(overflow, forks, catFork) && k in cat && cat[k].File?
    ensures var c := cat[k].cnid;
      c in forks && Used(cat[k].inline) + AllRuns(Select(overflow, DataFork(c))) == forks[c]
  {
    hide ForkSpilled;
    assert FileOk(cat[k], forks);
    ForkRuns(overflow, cat[k].cnid, forks[cat[k].cnid]);
  }

  /** Every file reads back as the runs of its fork. */
  lemma FilesReadBack(cat: Cat, forks: Forks, overflow: seq<Rec>, catFork: seq<Extent>, k: Key)
    requires FilesOk(cat, forks) && SpillsOk(overflow, forks, catFork) && k in cat && cat[k].File?
    ensures var e := cat[k]; e.cnid in forks && Resolve(e.inline, e.total, overflow, DataFork(e.cnid)) == forks[e.cnid]
  {
    hide Resolve, Spilled;
    assert FileOk(cat[k], forks);
    var c := cat[k].cnid;
    assert ForkSpilled(overflow, DataFork(c), forks[c]);
    SpillRoundTrip(overflow, DataFork(c), forks[c]);
  }

  lemma FolderItem(cat: Cat, k: Key)
    requires Linked(cat) && k in cat && cat[k].Folder?
    ensures FolderAt(cat, cat[k].cnid)
  {
    assert ItemLinked(cat, k);
  }

  /** An item in a folder is not the root folder. */
  lemma NotRoot(cat: Cat, next: nat, k: Key)
    requires Linked(cat) && Rooted(cat) && IdsBelow(cat, next) && IsItem(cat, k) && FolderAt(cat, k.parent)
    ensures Id(cat[k]) != ROOT_FOLDER
  {
    ParentId(cat, next, k.parent);
  }

  lemma AddedFolder(cat0: Cat, c: nat, k: Key, e: Entry)
    requires Linked(cat0) && IdsBelow(cat0, c) && !e.Thread? && e.cnid == c && k !in cat0 && k.name != []
    requires FolderAt(cat0, k.parent)
    ensures ThreadKey(c) !in cat0
    ensures var a := Added(cat0, k, e); Linked(a) && FolderAt(a, k.parent) && FolderKey(a, k.parent) in a
  {
    IdUnused(cat0, c, c);
    AddLinked(cat0, k, e);
    FolderFound(Added(cat0, k, e), k.parent);
  }

  /** A new item, the parent adjusted: the catalog is in order again. */
  lemma ItemAdded(cat0: Cat, cat1: Cat, c: nat, files: nat, folders: nat, k: Key, e: Entry)
    requires CatalogOk(cat0, c, files, folders) && c + 1 < U32 && !e.Thread? && e.cnid == c
    requires e.Folder? ==> e.valence == 0 && e.folders == 0
    requires k !in cat0 && k.name != [] && FolderAt(cat0, k.parent) && Created(cat0, cat1, k, e, FolderWeight(e))
    ensures CatalogOk(cat1, c + 1, if e.File? then AddU32(files, 1) else files,
      if e.File? then folders else AddU32(folders, 1))
  {
    hide Linked, Rooted, IdsBelow, Counted, Files, Folders, Children, Subfolders, Patched, Added;
    AddKeeps(cat0, c, files, folders, k, e);
    var a, p, w := Added(cat0, k, e), k.parent, FolderWeight(e);
    PatchShape(a, c + 1, p, 1, w);
    PatchCounted(a, c + 1, p, 1, w, map[p := 1], map[p := w]);
    NothingDue(cat1, map[p := 1][p := 0], map[p := w][p := 0]);
    CountsFit(cat1, c + 1, p);
  }

  lemma ItemRemoved(cat0: Cat, next: nat, files: nat, folders: nat, k: Key)
    requires CatalogOk(cat0, next, files, folders) && IsItem(cat0, k) && Id(cat0[k]) != ROOT_FOLDER
    requires cat0[k].Folder? ==> Children(cat0, cat0[k].cnid) == {}
    ensures var a, w := Removed(cat0, k), FolderWeight(cat0[k]);
      && FolderAt(a, k.parent) && FolderKey(a, k.parent) in a
      && var cat1 := Patched(a, k.parent, -1, -w);
         && CatalogOk(cat1, next, if cat0[k].File? then AddU32(files, -1) else files,
           if cat0[k].File? then folders else AddU32(folders, -1))
         && FolderAt(cat1, k.parent) && k !in cat1
  {
    hide Linked, Rooted, IdsBelow, Counted, Files, Folders, Children, Subfolders;
    RemoveKeeps(cat0, next, files, folders, k);
    RemoveLinked(cat0, k);
    var a, p, w := Removed(cat0, k), k.parent, FolderWeight(cat0[k]);
    RootThere(a);
    RootCounted(a);
    PatchShape(a, next, p, -1, -w);
    PatchCounted(a, next, p, -1, -w, map[p := -1], map[p := -w]);
    NothingDue(Patched(a, p, -1, -w), map[p := -1][p := 0], map[p := -w][p := 0]);
    CountsFit(cat0, next, p);
  }

  lemma TwoGone(cat: Cat, k: Key)
    requires k in cat
    ensures cat - {k} - {ThreadKey(Id(cat[k]))} == Removed(cat, k)
  {
  }

  lemma IdIsNext(cat: Cat, next: nat, files: nat, folders: nat)
    requires CatalogOk(cat, next, files, folders)
    ensures FIRST_USER_ID <= next < U32 && ThreadKey(next) !in cat
  {
    hide Linked, Rooted, Counted, Files, Folders;
    IdUnused(cat, next, next);
  }

  /** A counter that has wrapped is not above the CNIDs in use. */
  lemma Wrapped(cat: Cat, files: nat, folders: nat)
    ensures !CatalogOk(cat, 0, files, folders)
  {
    hide Linked, Rooted, Counted, Files, Folders;
  }

  /** A new folder: the catalog is in order again exactly if the counter did not wrap. */
  lemma DirMade(cat0: Cat, cat1: Cat, c: nat, files: nat, folders: nat, forks: Forks, k: Key, e: Entry)
    requires CatalogOk(cat0, c, files, folders) && FilesOk(cat0, forks) && c < U32
    requires e.Folder? && e.cnid == c && e.valence == 0 && e.folders == 0
    requires k !in cat0 && k.name != [] && FolderAt(cat0, k.parent) && Created(cat0, cat1, k, e, 1)
    ensures FilesOk(cat1, forks)
    ensures CatalogOk(cat1, (c + 1) % U32, files, AddU32(folders, 1)) <==> c != U32 - 1
  {
    hide Linked, Rooted, IdsBelow, Counted, Files, Folders, FilesOk, Created, FolderAt;
    FolderAdded(cat0, cat1, c, forks, k, e);
    if c != U32 - 1 {
      ItemAdded(cat0, cat1, c, files, folders, k, e);
    } else {
      Wrapped(cat1, files, AddU32(folders, 1));
    }
  }

  /** A new file: likewise. */
  lemma FileMade(cat0: Cat, cat1: Cat, c: nat, files: nat, folders: nat, forks: Forks, k: Key, e: Entry,
      runs: seq<Extent>)
    requires CatalogOk(cat0, c, files, folders) && FilesOk(cat0, forks) && c < U32 && c !in forks
    requires e == File(c, Pad(Inline(runs)), Sum(runs))
    requires k !in cat0 && k.name != [] && FolderAt(cat0, k.parent) && Created(cat0, cat1, k, e, 0)
    ensures FilesOk(cat1, forks[c := runs])
    ensures CatalogOk(cat1, (c + 1) % U32, AddU32(files, 1), folders) <==> c != U32 - 1
  {
    hide Linked, Rooted, IdsBelow, Counted, Files, Folders, FilesOk, Created, FolderAt, Sum, Pad, Inline;
    FileAdded(cat0, cat1, c, forks, k, e, runs);
    if c != U32 - 1 {
      ItemAdded(cat0, cat1, c, files, folders, k, e);
    } else {
      Wrapped(cat1, AddU32(files, 1), folders);
    }
  }

  /** A file can go, with its fork. */
  lemma FileUnmade(cat: Cat, next: nat, files: nat, folders: nat, forks: Forks, k: Key)
    requires CatalogOk(cat, next, files, folders) && FilesOk(cat, forks) && k in cat && cat[k].File?
    ensures var a := Removed(cat, k);
      && FolderAt(a, k.parent) && FolderKey(a, k.parent) in a
      && var cat1 := Patched(a, k.parent, -1, 0);
         && CatalogOk(cat1, next, AddU32(files, -1), folders) && FilesOk(cat1, forks - {cat[k].cnid})
         && Dropped(cat, cat1, k)
         && FolderAt(cat1, k.parent) && k !in cat1
  {
    hide Linked, Rooted, IdsBelow, Counted, Files, Folders, FilesOk, FolderAt, Patched, Removed, FolderKey;
    RootNotFile(cat, k);
    ItemRemoved(cat, next, files, folders, k);
    RemovedFiles(cat, forks, k);
    PatchFiles(Removed(cat, k), forks - {cat[k].cnid}, k.parent, -1, 0);
  }

  /** An empty folder can go. */
  lemma DirUnmade(cat: Cat, next: nat, files: nat, folders: nat, forks: Forks, k: Key)
    requires CatalogOk(cat, next, files, folders) && FilesOk(cat, forks)
    requires k in cat && cat[k].Folder? && FolderAt(cat, k.parent) && !HasChild(cat, cat[k].cnid)
    ensures var a := Removed(cat, k);
      && FolderAt(a, k.parent) && FolderKey(a, k.parent) in a
      && var cat1 := Patched(a, k.parent, -1, -1);
         && CatalogOk(cat1, next, files, AddU32(folders, -1)) && FilesOk(cat1, forks) && Dropped(cat, cat1, k)
  {
    hide Linked, Rooted, IdsBelow, Counted, Files, Folders, FilesOk, FolderAt, HasChild, Children, Patched, Removed,
      FolderKey;
    NotRoot(cat, next, k);
    NoChild(cat, cat[k].cnid);
    ItemRemoved(cat, next, files, folders, k);
    RemovedFiles(cat, forks, k);
    PatchFiles(Removed(cat, k), forks, k.parent, -1, -1);
  }

  /** Patching a folder leaves the files alone. */
  lemma PatchFiles(cat: Cat, forks: Forks, p: nat, d: int, fd: int)
    requires Linked(cat) && FilesOk(cat, forks) && FolderAt(cat, p)
    ensures FolderKey(cat, p) in cat && FilesOk(Patched(cat, p, d, fd), forks)
  {
    FolderFound(cat, p);
    var k := FolderKey(cat, p);
    var cat' := Patched(cat, p, d, fd);
    forall j | j in cat' && cat'[j].File? ensures FileOk(cat'[j], forks) {
      assert cat[j] == cat'[j];
    }
    forall c: nat | c in forks ensures FileThread(cat', c) {
      assert FileThread(cat, c);
    }
  }

  lemma FileAdded(cat0: Cat, cat1: Cat, c: nat, forks: Forks, k: Key, e: Entry, runs: seq<Extent>)
    requires Linked(cat0) && IdsBelow(cat0, c) && FilesOk(cat0, forks) && c !in forks
    requires e == File(c, Pad(Inline(runs)), Sum(runs)) && k !in cat0 && k.name != [] && FolderAt(cat0, k.parent)
    requires Created(cat0, cat1, k, e, 0)
    ensures FilesOk(cat1, forks[c := runs])
  {
    hide Pad, Inline;
    AddedFolder(cat0, c, k, e);
    var a, forks' := Added(cat0, k, e), forks[c := runs];
    hide Linked, IdsBelow, FolderAt, Patched;
    forall j | j in a && a[j].File? ensures FileOk(a[j], forks') {
      if j != k {
        assert FileOk(cat0[j], forks);
      }
    }
    forall d: nat | d in forks' ensures FileThread(a, d) {
      if d != c {
        assert FileThread(cat0, d);
      }
    }
    PatchFiles(a, forks', k.parent, 1, 0);
  }

  lemma FolderAdded(cat0: Cat, cat1: Cat, c: nat, forks: Forks, k: Key, e: Entry)
    requires Linked(cat0) && IdsBelow(cat0, c) && FilesOk(cat0, forks)
    requires e.Folder? && e.cnid == c && k !in cat0 && k.name != [] && FolderAt(cat0, k.parent)
    requires Created(cat0, cat1, k, e, 1)
    ensures FilesOk(cat1, forks)
  {
    AddedFolder(cat0, c, k, e);
    var a := Added(cat0, k, e);
    forall j | j in a && a[j].File? ensures FileOk(a[j], forks) {
      assert FileOk(cat0[j], forks);
    }
    forall d: nat | d in forks ensures FileThread(a, d) {
      assert FileThread(cat0, d);
    }
    PatchFiles(a, forks, k.parent, 1, 1);
  }

  /** The forks left after a removal: a file takes its own with it. */
  function ForksWithout(forks: Forks, e: Entry): Forks {
    if e.File? then forks - {e.cnid} else forks
  }

  lemma RemovedFiles(cat0: Cat, forks: Forks, k: Key)
    requires Linked(cat0) && FilesOk(cat0, forks) && IsItem(cat0, k)
    ensures FilesOk(Removed(cat0, k), ForksWithout(forks, cat0[k])) && Linked(Removed(cat0, k))
  {
    RemoveLinked(cat0, k);
    assert ItemLinked(cat0, k);
    var a, forks' := Removed(cat0, k), ForksWithout(forks, cat0[k]);
    forall j | j in a && a[j].File? ensures FileOk(a[j], forks') {
      assert FileOk(cat0[j], forks);
      OtherId(cat0, j, k);
    }
    hide Linked;
    forall d: nat | d in forks' ensures FileThread(a, d) {
      assert FileThread(cat0, d);
    }
  }

  lemma OtherId(cat: Cat, j: Key, k: Key)
    requires Linked(cat) && IsItem(cat, j) && IsItem(cat, k) && j != k
    ensures Id(cat[j]) != Id(cat[k])
  {
    if Id(cat[j]) == Id(cat[k]) {
      SameId(cat, j, k);
    }
  }

  lemma RootNotFile(cat: Cat, k: Key)
    requires Linked(cat) && Rooted(cat) && k in cat && cat[k].File?
    ensures Id(cat[k]) != ROOT_FOLDER
  {
    assert ItemLinked(cat, k);
  }

  lemma NoChild(cat: Cat, c: nat)
    requires !HasChild(cat, c)
    ensures Children(cat, c) == {}
  {
  }

  lemma MoveFiles(cat0: Cat, forks: Forks, k: Key, to: Key)
    requires Linked(cat0) && FilesOk(cat0, forks) && IsItem(cat0, k) && to.name != [] && to !in Removed(cat0, k)
    ensures FilesOk(Moved(cat0, k, to), forks)
  {
    MoveLinked(cat0, k, to);
    var m := Moved(cat0, k, to);
    forall j | j in m && m[j].File? ensures FileOk(m[j], forks) {
      assert FileOk(cat0[if j == to then k else j], forks);
    }
    forall d: nat | d in forks ensures FileThread(m, d) {
      assert FileThread(cat0, d);
      assert ItemLinked(cat0, k);
    }
  }

  /** After a move, adjusting the two parents puts the catalog in order again; the same parent needs nothing. */
  lemma MoveAdjusts(cat0: Cat, next: nat, files: nat, folders: nat, forks: Forks, k: Key, to: Key)
    requires CatalogOk(cat0, next, files, folders) && FilesOk(cat0, forks) && IsItem(cat0, k)
    requires to.name != [] && to !in Removed(cat0, k)
    requires if Id(cat0[k]) == ROOT_FOLDER then to.parent == ROOT_PARENT else FolderAt(cat0, to.parent)
    ensures var m, w := Moved(cat0, k, to), FolderWeight(cat0[k]);
      && (k.parent == to.parent ==> CatalogOk(m, next, files, folders) && FilesOk(m, forks))
      && (k.parent != to.parent ==>
          && FolderAt(m, k.parent) && FolderKey(m, k.parent) in m
          && var m1 := Patched(m, k.parent, -1, -w);
             && FolderAt(m1, to.parent) && FolderKey(m1, to.parent) in m1
             && var m2 := Patched(m1, to.parent, 1, w);
                CatalogOk(m2, next, files, folders) && FilesOk(m2, forks))
  {
    hide Linked, Rooted, IdsBelow, Counted, Files, Folders, Children, Subfolders, FilesOk, Patched, Moved;
    MoveKeeps(cat0, next, files, folders, k, to);
    MoveFiles(cat0, forks, k, to);
    var m, w := Moved(cat0, k, to), FolderWeight(cat0[k]);
    var due, fdue := MoveDue(k.parent, to.parent, 1), MoveDue(k.parent, to.parent, w);
    if k.parent == to.parent {
      NothingDue(m, due, fdue);
    } else {
      RootStays(cat0, k, to);
      PatchShape(m, next, k.parent, -1, -w);
      PatchCounted(m, next, k.parent, -1, -w, due, fdue);
      PatchFiles(m, forks, k.parent, -1, -w);
      var m1 := Patched(m, k.parent, -1, -w);
      PatchShape(m1, next, to.parent, 1, w);
      PatchCounted(m1, next, to.parent, 1, w, due[k.parent := 0], fdue[k.parent := 0]);
      PatchFiles(m1, forks, to.parent, 1, w);
      NothingDue(Patched(m1, to.parent, 1, w), due[k.parent := 0][to.parent := 0], fdue[k.parent := 0][to.parent := 0]);
    }
  }

  /** What `Rename` does, step by step: the record goes to its new key, and the counts of different parents follow. */
  lemma RenameAdjusts(cat0: Cat, next: nat, files: nat, folders: nat, forks: Forks, k: Key, to: Key)
    requires CatalogOk(cat0, next, files, folders) && FilesOk(cat0, forks)
    requires k in cat0 && !cat0[k].Thread? && FolderAt(cat0, k.parent)
    requires to !in cat0 && to.name != [] && FolderAt(cat0, to.parent)
    ensures IsItem(cat0, k)
    ensures var m, w := Moved(cat0, k, to), FolderWeight(cat0[k]);
      && (k.parent == to.parent ==> CatalogOk(m, next, files, folders) && FilesOk(m, forks) && Renamed(cat0, m, k, to))
      && (k.parent != to.parent ==>
          && FolderAt(m, k.parent) && FolderKey(m, k.parent) in m
          && var m1 := Patched(m, k.parent, -1, -w);
             && FolderAt(m1, to.parent) && FolderKey(m1, to.parent) in m1
             && var m2 := Patched(m1, to.parent, 1, w);
                CatalogOk(m2, next, files, folders) && FilesOk(m2, forks) && Renamed(cat0, m2, k, to))
  {
    hide Linked, Rooted, IdsBelow, Counted, Files, Folders, FilesOk, Patched, Moved, FolderAt, FolderKey;
    NotRoot(cat0, next, k);
    MoveAdjusts(cat0, next, files, folders, forks, k, to);
  }

  /** The root folder keeps its parent. */
  lemma RootStays(cat: Cat, k: Key, to: Key)
    requires Rooted(cat) && IsItem(cat, k) && k.parent != to.parent
    requires Id(cat[k]) == ROOT_FOLDER ==> to.parent == ROOT_PARENT
    ensures Id(cat[k]) != ROOT_FOLDER
  {
  }

  lemma RootKey(cat: Cat, next: nat) returns (k: Key)
    requires Linked(cat) && Rooted(cat) && IdsBelow(cat, next)
    ensures k in cat && k.parent == ROOT_PARENT
  {
    FolderFound(cat, ROOT_FOLDER);
    k := FolderKey(cat, ROOT_FOLDER);
    assert IsItem(cat, k);
  }

  lemma NotThread(cat: Cat, next: nat, k: Key)
    requires Linked(cat) && IdsBelow(cat, next) && k in cat && k.parent == ROOT_PARENT
    ensures IsItem(cat, k)
  {
    if cat[k].Thread? {
      ThreadIsKeyed(cat, k);
      ThreadId(cat, next, ROOT_PARENT);
    }
  }

  lemma ThreadIsKeyed(cat: Cat, k: Key)
    requires Linked(cat) && k in cat && cat[k].Thread?
    ensures k == ThreadKey(k.parent)
  {
    assert ThreadLinked(cat, k);
  }

  /** Whatever lies in CNID 1 is the root folder, and nothing else does. */
  lemma RootIs(cat: Cat, next: nat, k: Key, to: Key)
    requires Linked(cat) && Rooted(cat) && IdsBelow(cat, next) && k in cat && k.parent == ROOT_PARENT
    requires to.parent == ROOT_PARENT
    ensures IsItem(cat, k) && Id(cat[k]) == ROOT_FOLDER && cat[k].Folder? && to !in Removed(cat, k)
  {
    NotThread(cat, next, k);
    FolderFound(cat, ROOT_FOLDER);
    SameId(cat, k, FolderKey(cat, ROOT_FOLDER));
    if to in cat {
      NotThread(cat, next, to);
      SameId(cat, to, k);
    }
  }

  lemma RootCounted(cat: Cat)
    requires Linked(cat) && FolderAt(cat, ROOT_FOLDER)
    ensures |Folders(cat)| >= 1
  {
    FolderFound(cat, ROOT_FOLDER);
    assert FolderKey(cat, ROOT_FOLDER) in Folders(cat);
  }

  lemma RootThere(cat: Cat)
    requires Rooted(cat)
    ensures FolderAt(cat, ROOT_FOLDER)
  {
  }
}
