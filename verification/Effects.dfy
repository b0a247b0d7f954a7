/** What the file operations do to the catalog, record by record. */
module Effects {
  import opened Nodes
  import opened ExtentsKeys
  import opened Owners
  import opened Catalogs
  import opened Volumes

  /** Adjusting a folder's counts changes that folder's record alone, and in it the valence and, where the folder keeps
      one, the folder count. */
  lemma PatchMeans(cat: Cat, p: nat, d: int, fd: int)
    requires Linked(cat) && FolderAt(cat, p)
    ensures FolderKey(cat, p) in cat && Patched(cat, p, d, fd).Keys == cat.Keys
    ensures forall j :: j in cat ==>
      var e := cat[j];
      Patched(cat, p, d, fd)[j] ==
        if e.Folder? && e.cnid == p
        then Folder(p, (e.valence + d) % U32, e.counted, if e.counted then (e.folders + fd) % U32 else e.folders)
        else e
  {
    FolderFound(cat, p);
    var k := FolderKey(cat, p);
    forall j | j in cat && cat[j].Folder? && cat[j].cnid == p ensures j == k {
      SameId(cat, j, k);
    }
  }

  /** A new item brings its record and its thread; of the other records only the parent's changes, by its counts. */
  lemma CreatedMeans(cat0: Cat, cat1: Cat, c: nat, k: Key, e: Entry, fd: int)
    requires Linked(cat0) && IdsBelow(cat0, c) && !e.Thread? && e.cnid == c
    requires k !in cat0 && k.name != [] && FolderAt(cat0, k.parent) && Created(cat0, cat1, k, e, fd)
    ensures cat1.Keys == cat0.Keys + {k, Key(c, [])} && Key(c, []) !in cat0
    ensures cat1[k] == e && cat1[Key(c, [])] == Thread(k.parent, k.name, e.Folder?)
    ensures forall j :: j in cat0 ==>
      var f := cat0[j];
      cat1[j] ==
        if f.Folder? && f.cnid == k.parent
        then Folder(f.cnid, (f.valence + 1) % U32, f.counted, if f.counted then (f.folders + fd) % U32 else f.folders)
        else f
  {
    hide Patched, Linked, FolderKey;
    var a := Added(cat0, k, e);
    AddedFolder(cat0, c, k, e);
    ParentId(cat0, c, k.parent);
    PatchMeans(a, k.parent, 1, fd);
  }

  /** Removing an item takes its record and its thread; of the others only the parent's record changes. */
  lemma DroppedMeans(cat0: Cat, cat1: Cat, k: Key)
    requires Linked(cat0) && IsItem(cat0, k) && Dropped(cat0, cat1, k)
    ensures cat1.Keys == cat0.Keys - {k, Key(Id(cat0[k]), [])}
    ensures forall j :: j in cat1 ==>
      var f, w := cat0[j], if cat0[k].Folder? then 1 else 0;
      cat1[j] ==
        if f.Folder? && f.cnid == k.parent
        then Folder(f.cnid, (f.valence - 1) % U32, f.counted, if f.counted then (f.folders - w) % U32 else f.folders)
        else f
  {
    hide Patched, Linked, FolderKey;
    RemoveLinked(cat0, k);
    PatchMeans(Removed(cat0, k), k.parent, -1, -FolderWeight(cat0[k]));
  }

  /** Two folders' counts adjusted. */
  lemma TwiceMeans(m: Cat, next: nat, p: nat, q: nat, w: int)
    requires Linked(m) && Rooted(m) && IdsBelow(m, next) && FolderAt(m, p) && FolderAt(m, q) && p != q
    requires FolderKey(m, p) in m
    ensures var m1 := Patched(m, p, -1, -w);
      && FolderAt(m1, q) && FolderKey(m1, q) in m1
      && var m2 := Patched(m1, q, 1, w);
         && m2.Keys == m.Keys
         && forall j :: j in m ==>
           var f := m[j];
           m2[j] ==
             if !f.Folder? || (f.cnid != p && f.cnid != q) then f
             else
               var d := if f.cnid == q then 1 else -1;
               Folder(f.cnid, (f.valence + d) % U32, f.counted,
                 if f.counted then (f.folders + d * w) % U32 else f.folders)
  {
    hide Linked, Rooted, IdsBelow, FolderAt, FolderKey, Patched;
    PatchMeans(m, p, -1, -w);
    PatchShape(m, next, p, -1, -w);
    PatchMeans(Patched(m, p, -1, -w), q, 1, w);
  }

  lemma MovedMeans(cat: Cat, k: Key, to: Key)
    requires Linked(cat) && IsItem(cat, k) && to !in cat && to.name != []
    ensures Key(Id(cat[k]), []) in cat && Moved(cat, k, to).Keys == cat.Keys - {k} + {to}
    ensures Key(Id(cat[k]), []) in Moved(cat, k, to)
    ensures Moved(cat, k, to)[Key(Id(cat[k]), [])] == Thread(to.parent, to.name, cat[k].Folder?)
    ensures forall j :: j in cat && j != Key(Id(cat[k]), []) ==>
      Moved(cat, k, to)[if j == k then to else j] == cat[j]
  {
    assert ItemLinked(cat, k);
  }

  /** A rename puts the item's record, CNID and fork unchanged, at the new key and rewrites its thread; of the other
      records only those of the two parents change, and these only when they differ. */
  lemma RenamedMeans(cat0: Cat, cat1: Cat, next: nat, k: Key, to: Key)
    requires Linked(cat0) && Rooted(cat0) && IdsBelow(cat0, next) && IsItem(cat0, k) && Renamed(cat0, cat1, k, to)
    requires to !in cat0 && to.name != [] && FolderAt(cat0, to.parent) && FolderAt(cat0, k.parent)
    ensures cat1.Keys == cat0.Keys - {k} + {to} && Key(Id(cat0[k]), []) in cat0
    ensures cat1[Key(Id(cat0[k]), [])] == Thread(to.parent, to.name, cat0[k].Folder?)
    ensures forall j :: j in cat0 && j != Key(Id(cat0[k]), []) ==>
      var f, w, at := cat0[j], if cat0[k].Folder? then 1 else 0, if j == k then to else j;
      cat1[at] ==
        if !f.Folder? || k.parent == to.parent || (f.cnid != k.parent && f.cnid != to.parent) then f
        else
          var d := if f.cnid == to.parent then 1 else -1;
          Folder(f.cnid, (f.valence + d) % U32, f.counted, if f.counted then (f.folders + d * w) % U32 else f.folders)
  {
    hide Patched, Linked, FolderKey, FolderAt, Rooted, IdsBelow, Moved;
    MovedMeans(cat0, k, to);
    if k.parent != to.parent {
      MovedApart(cat0, cat1, next, k, to);
    }
  }

  /** Between two folders. */
  lemma MovedApart(cat0: Cat, cat1: Cat, next: nat, k: Key, to: Key)
    requires Linked(cat0) && Rooted(cat0) && IdsBelow(cat0, next) && IsItem(cat0, k) && Renamed(cat0, cat1, k, to)
    requires to !in cat0 && to.name != [] && FolderAt(cat0, to.parent) && FolderAt(cat0, k.parent)
    requires k.parent != to.parent
    ensures cat1.Keys == Moved(cat0, k, to).Keys
    ensures forall j :: j in cat1 ==>
      var f, w := Moved(cat0, k, to)[j], if cat0[k].Folder? then 1 else 0;
      cat1[j] ==
        if !f.Folder? || (f.cnid != k.parent && f.cnid != to.parent) then f
        else
          var d := if f.cnid == to.parent then 1 else -1;
          Folder(f.cnid, (f.valence + d) % U32, f.counted, if f.counted then (f.folders + d * w) % U32 else f.folders)
  {
    hide Patched, Linked, FolderKey, FolderAt, Rooted, IdsBelow, Moved;
    MoveStays(cat0, next, k, to);
    TwiceMeans(Moved(cat0, k, to), next, k.parent, to.parent, FolderWeight(cat0[k]));
  }

  lemma MoveStays(cat: Cat, next: nat, k: Key, to: Key)
    requires Linked(cat) && Rooted(cat) && IdsBelow(cat, next) && IsItem(cat, k) && to !in cat && to.name != []
    requires FolderAt(cat, to.parent) && FolderAt(cat, k.parent)
    ensures var m := Moved(cat, k, to);
      Linked(m) && Rooted(m) && IdsBelow(m, next) && FolderAt(m, k.parent) && FolderAt(m, to.parent)
  {
    hide Linked, Rooted, IdsBelow, FolderAt, Moved;
    NotRoot(cat, next, k);
    MoveLinked(cat, k, to);
    MoveRooted(cat, next, k, to);
  }

  // ---- paths ----

  /** The folders the components of a path but the last go through: the root folder, then each the folder of that name
      in the one before. */
  ghost predicate Trail(cat: Cat, parts: seq<Name>, ids: seq<nat>) {
    && parts != [] && |ids| == |parts| && ids[0] == 2
    && forall i :: 0 <= i < |parts| - 1 ==> SubfolderAt(cat, ids[i], parts[i], ids[i + 1])
  }

  ghost predicate SubfolderAt(cat: Cat, c: nat, name: Name, d: nat) {
    Key(c, name) in cat && cat[Key(c, name)].Folder? && cat[Key(c, name)].cnid == d
  }

  lemma {:induction false} WalkAlong(cat: Cat, next: nat, parts: seq<Name>, ids: seq<nat>, i: nat)
    requires Linked(cat) && IdsBelow(cat, next) && Trail(cat, parts, ids) && i < |parts|
    ensures Walk(cat, ids[i], parts[i..|parts| - 1]) == ids[|ids| - 1] && (i > 0 ==> ids[i] != 0)
    decreases |parts| - i
  {
    hide Linked;
    if i < |parts| - 1 {
      WalkAlong(cat, next, parts, ids, i + 1);
      assert SubfolderAt(cat, ids[i], parts[i], ids[i + 1]);
      assert parts[i..|parts| - 1][1..] == parts[i + 1..|parts| - 1];
    }
    if i > 0 {
      assert SubfolderAt(cat, ids[i - 1], parts[i - 1], ids[i]);
      assert IsItem(cat, Key(ids[i - 1], parts[i - 1]));
    }
  }

  lemma {:induction false} TrailFound(cat: Cat, next: nat, c: nat, dirs: seq<Name>) returns (ids: seq<nat>)
    requires IdsBelow(cat, next) && c != 0 && Walk(cat, c, dirs) != 0
    ensures |ids| == |dirs| + 1 && ids[0] == c
    ensures forall i :: 0 <= i < |dirs| ==> SubfolderAt(cat, ids[i], dirs[i], ids[i + 1])
    decreases |dirs|
  {
    if dirs == [] {
      ids := [c];
    } else {
      assert IsItem(cat, Key(c, dirs[0]));
      var rest := TrailFound(cat, next, cat[Key(c, dirs[0])].cnid, dirs[1..]);
      ids := [c] + rest;
      forall i | 0 <= i < |dirs| ensures SubfolderAt(cat, ids[i], dirs[i], ids[i + 1]) {
        if i > 0 {
          assert SubfolderAt(cat, rest[i - 1], dirs[1..][i - 1], rest[i]);
        }
      }
    }
  }

  /** A path that leads through folders to one in which its last component is looked for. */
  lemma PathLeads(cat: Cat, next: nat, parts: seq<Name>, ids: seq<nat>)
    requires Linked(cat) && IdsBelow(cat, next) && Trail(cat, parts, ids)
    ensures Resolves(cat, parts) && Target(cat, parts) == Key(ids[|ids| - 1], parts[|parts| - 1])
  {
    hide Linked, IdsBelow;
    WalkAlong(cat, next, parts, ids, 0);
    if |parts| > 1 {
      WalkAlong(cat, next, parts, ids, |parts| - 1);
    }
    assert parts[0..|parts| - 1] == parts[..|parts| - 1];
  }

  /** No other path does. */
  lemma PathFails(cat: Cat, next: nat, parts: seq<Name>)
    requires IdsBelow(cat, next)
    ensures Resolves(cat, parts) ==> exists ids: seq<nat> :: Trail(cat, parts, ids)
  {
    if Resolves(cat, parts) {
      var dirs := parts[..|parts| - 1];
      var ids := TrailFound(cat, next, ROOT_FOLDER, dirs);
      forall i | 0 <= i < |parts| - 1 ensures SubfolderAt(cat, ids[i], parts[i], ids[i + 1]) {
        assert SubfolderAt(cat, ids[i], dirs[i], ids[i + 1]);
      }
      assert Trail(cat, parts, ids);
    }
  }

  /** When each operation applies: a file can be written where there is none or a file, removed where there is a file;
      a folder can be made where there is nothing, removed where there is one without items in it. */
  lemma AppliesWhen(cat: Cat, next: nat, parts: seq<Name>, ids: seq<nat>)
    requires Linked(cat) && IdsBelow(cat, next) && Trail(cat, parts, ids)
    ensures var k := Key(ids[|ids| - 1], parts[|parts| - 1]);
      && (CanWrite(cat, parts) <==> k in cat ==> cat[k].File?)
      && (CanDeleteFile(cat, parts) <==> k in cat && cat[k].File?)
      && (CanMkDir(cat, parts) <==> k !in cat)
      && (CanDeleteDir(cat, parts) <==>
            k in cat && cat[k].Folder? && forall j :: j in cat && j.parent == cat[k].cnid ==> cat[j].Thread?)
  {
    hide Linked, IdsBelow, Resolves, Target;
    PathLeads(cat, next, parts, ids);
  }

  /** A rename applies to an item, towards a key that is not there. */
  lemma RenameAppliesWhen(cat: Cat, next: nat, oldParts: seq<Name>, oldIds: seq<nat>, newParts: seq<Name>,
      newIds: seq<nat>)
    requires Linked(cat) && IdsBelow(cat, next) && Trail(cat, oldParts, oldIds) && Trail(cat, newParts, newIds)
    ensures CanRename(cat, oldParts, newParts) <==>
      Key(oldIds[|oldIds| - 1], oldParts[|oldParts| - 1]) in cat &&
      Key(newIds[|newIds| - 1], newParts[|newParts| - 1]) !in cat
  {
    hide Linked, IdsBelow, Resolves, Target;
    PathLeads(cat, next, oldParts, oldIds);
    PathLeads(cat, next, newParts, newIds);
  }
}
