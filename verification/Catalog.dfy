/** The catalog as a map from keys to records, and what every operation keeps of it: each file or folder has
    exactly one thread that names its key, each folder counts its children, and the volume counts them all. */
module Catalogs {
  import opened Nodes

  const ROOT_PARENT := 1
  const ROOT_FOLDER := 2
  const FIRST_USER_ID := 16

  /** A name is a sequence of 16-bit units; a thread's key has the empty name. */
  type Name = seq<nat>

  datatype Key = Key(parent: nat, name: Name)

  datatype Entry =
    | Folder(cnid: nat, valence: nat, counted: bool, folders: nat)
    | File(cnid: nat, inline: seq<Extent>, total: nat)
    | Thread(parent: nat, name: Name, folder: bool)

  type Cat = map<Key, Entry>

  function Id(e: Entry): nat {
    if e.Thread? then 0 else e.cnid
  }

  predicate IsItem(cat: Cat, k: Key) {
    k in cat && !cat[k].Thread?
  }

  function ThreadKey(cnid: nat): Key {
    Key(cnid, [])
  }

  function ThreadTo(k: Key, e: Entry): Entry {
    Thread(k.parent, k.name, e.Folder?)
  }

  /** The folder with this CNID exists. */
  predicate FolderAt(cat: Cat, cnid: nat) {
    ThreadKey(cnid) in cat && cat[ThreadKey(cnid)].Thread? && cat[ThreadKey(cnid)].folder
  }

  // ---- the invariant ----

  /** Items and threads name each other, one to one. */
  ghost predicate Linked(cat: Cat) {
    && (forall k :: k in cat && !cat[k].Thread? ==> ItemLinked(cat, k))
    && (forall k :: k in cat && cat[k].Thread? ==> ThreadLinked(cat, k))
  }

  ghost predicate ItemLinked(cat: Cat, k: Key)
    requires k in cat
  {
    k.name != [] && ThreadKey(Id(cat[k])) in cat && cat[ThreadKey(Id(cat[k]))] == ThreadTo(k, cat[k])
  }

  ghost predicate ThreadLinked(cat: Cat, k: Key)
    requires k in cat && cat[k].Thread?
  {
    k.name == [] && IsItem(cat, Key(cat[k].parent, cat[k].name)) && Id(cat[Key(cat[k].parent, cat[k].name)]) == k.parent
  }

  /** Every item but the root folder lies in an existing folder; only the root folder lies in CNID 1. */
  ghost predicate Rooted(cat: Cat) {
    && FolderAt(cat, ROOT_FOLDER)
    && (forall k :: IsItem(cat, k) ==> (k.parent == ROOT_PARENT <==> Id(cat[k]) == ROOT_FOLDER))
    && (forall k :: IsItem(cat, k) && Id(cat[k]) != ROOT_FOLDER ==> FolderAt(cat, k.parent))
  }

  /** Every CNID in use is the root folder's or a user's, below the next one. */
  ghost predicate IdsBelow(cat: Cat, next: nat) {
    && FIRST_USER_ID <= next < U32
    && forall k :: IsItem(cat, k) ==> Id(cat[k]) == ROOT_FOLDER || FIRST_USER_ID <= Id(cat[k]) < next
  }

  ghost function Children(cat: Cat, p: nat): set<Key> {
    set k | k in cat && k.parent == p && !cat[k].Thread?
  }

  ghost function Subfolders(cat: Cat, p: nat): set<Key> {
    set k | k in cat && k.parent == p && cat[k].Folder?
  }

  ghost function Files(cat: Cat): set<Key> {
    set k | k in cat && cat[k].File?
  }

  ghost function Folders(cat: Cat): set<Key> {
    set k | k in cat && cat[k].Folder?
  }

  /** Adjustments still to be made to a folder's counts. */
  function Due(due: map<nat, int>, cnid: nat): int {
    if cnid in due then due[cnid] else 0
  }

  ghost predicate CountOk(cat: Cat, e: Entry, due: map<nat, int>, fdue: map<nat, int>)
    requires e.Folder?
  {
    && e.valence + Due(due, e.cnid) == |Children(cat, e.cnid)|
    && (e.counted ==> e.folders + Due(fdue, e.cnid) == |Subfolders(cat, e.cnid)|)
  }

  /** Every folder's valence is its number of children, and its folder count, where it keeps one, its number of
      subfolders, once the adjustments due are made. */
  ghost predicate Counted(cat: Cat, due: map<nat, int>, fdue: map<nat, int>) {
    forall k :: k in cat && cat[k].Folder? ==> CountOk(cat, cat[k], due, fdue)
  }

  /** The catalog of a volume between operations. */
  ghost predicate CatalogOk(cat: Cat, next: nat, fileCount: nat, folderCount: nat) {
    && Linked(cat) && Rooted(cat) && IdsBelow(cat, next) && Counted(cat, map[], map[])
    && fileCount == |Files(cat)| && folderCount + 1 == |Folders(cat)|
  }

  // ---- CNIDs ----

  /** No two items share a CNID. */
  lemma SameId(cat: Cat, j: Key, k: Key)
    requires Linked(cat) && IsItem(cat, j) && IsItem(cat, k) && Id(cat[j]) == Id(cat[k])
    ensures j == k
  {
    assert ItemLinked(cat, j) && ItemLinked(cat, k);
  }

  lemma {:induction false} FewItems(cat: Cat, keys: set<Key>, n: nat)
    requires Linked(cat) && forall k :: k in keys ==> IsItem(cat, k) && Id(cat[k]) < n
    ensures |keys| <= n
    decreases n
  {
    if k :| k in keys && Id(cat[k]) == n - 1 {
      forall j | j in keys - {k} ensures Id(cat[j]) < n - 1 {
        if Id(cat[j]) == n - 1 {
          SameId(cat, j, k);
        }
      }
      FewItems(cat, keys - {k}, n - 1);
    } else if n > 0 {
      FewItems(cat, keys, n - 1);
    } else {
      NoItems(cat, keys);
    }
  }

  lemma NoItems(cat: Cat, keys: set<Key>)
    requires forall k :: k in keys ==> IsItem(cat, k) && Id(cat[k]) < 0
    ensures keys == {}
  {
    forall k ensures k !in keys {
    }
  }

  lemma CountsFit(cat: Cat, next: nat, p: nat)
    requires Linked(cat) && IdsBelow(cat, next)
    ensures |Children(cat, p)| < U32 && |Subfolders(cat, p)| < U32 && |Files(cat)| < U32 && |Folders(cat)| < U32
  {
    FewItems(cat, Children(cat, p), next);
    FewItems(cat, Subfolders(cat, p), next);
    FewItems(cat, Files(cat), next);
    FewItems(cat, Folders(cat), next);
  }

  // ---- adding an item ----

  function Added(cat: Cat, k: Key, e: Entry): Cat {
    cat[k := e][ThreadKey(Id(e)) := ThreadTo(k, e)]
  }

  /** A key and a CNID not in use. */
  ghost predicate Fresh(cat: Cat, k: Key, e: Entry) {
    !e.Thread? && k.name != [] && k !in cat && ThreadKey(e.cnid) !in cat
  }

  lemma AddLinked(cat: Cat, k: Key, e: Entry)
    requires Linked(cat) && Fresh(cat, k, e)
    ensures Linked(Added(cat, k, e))
  {
    var cat' := Added(cat, k, e);
    forall j | j in cat' && !cat'[j].Thread? ensures ItemLinked(cat', j) {
      assert j != k ==> ItemLinked(cat, j);
    }
    forall j | j in cat' && cat'[j].Thread? ensures ThreadLinked(cat', j) {
      assert j != ThreadKey(e.cnid) ==> ThreadLinked(cat, j);
    }
  }

  function Bump(due: map<nat, int>, p: nat, d: int): map<nat, int> {
    due[p := Due(due, p) + d]
  }

  lemma AddSets(cat: Cat, k: Key, e: Entry)
    requires Fresh(cat, k, e)
    ensures forall p: nat :: Children(Added(cat, k, e), p) == Children(cat, p) + (if p == k.parent then {k} else {})
    ensures forall p: nat ::
      Subfolders(Added(cat, k, e), p) == Subfolders(cat, p) + (if p == k.parent && e.Folder? then {k} else {})
    ensures Files(Added(cat, k, e)) == Files(cat) + (if e.File? then {k} else {})
    ensures Folders(Added(cat, k, e)) == Folders(cat) + (if e.Folder? then {k} else {})
  {
  }

  function FolderWeight(e: Entry): int {
    if e.Folder? then 1 else 0
  }

  function At(p: nat, q: nat): int {
    if p == q then 1 else 0
  }

  lemma AddSizes(cat: Cat, k: Key, e: Entry)
    requires Fresh(cat, k, e)
    ensures forall p: nat :: |Children(Added(cat, k, e), p)| == |Children(cat, p)| + At(p, k.parent)
    ensures forall p: nat ::
      |Subfolders(Added(cat, k, e), p)| == |Subfolders(cat, p)| + FolderWeight(e) * At(p, k.parent)
    ensures |Files(Added(cat, k, e))| == |Files(cat)| + (if e.File? then 1 else 0)
    ensures |Folders(Added(cat, k, e))| == |Folders(cat)| + FolderWeight(e)
  {
    hide Children, Subfolders, Files, Folders;
    AddSets(cat, k, e);
    forall p: nat ensures k !in Children(cat, p) && k !in Subfolders(cat, p) {
      NotIn(cat, k, p);
    }
    NotIn(cat, k, k.parent);
    hide Added;
  }

  /** The parent's counts are due one more. */
  lemma AddCounted(cat: Cat, k: Key, e: Entry, due: map<nat, int>, fdue: map<nat, int>)
    requires Fresh(cat, k, e) && Counted(cat, due, fdue)
    requires e.Folder? ==> CountOk(Added(cat, k, e), e, Bump(due, k.parent, 1), Bump(fdue, k.parent, 1))
    ensures Counted(Added(cat, k, e), Bump(due, k.parent, 1), Bump(fdue, k.parent, FolderWeight(e)))
  {
    hide Children, Subfolders;
    var cat' := Added(cat, k, e);
    AddSizes(cat, k, e);
    forall j | j in cat' && cat'[j].Folder?
      ensures CountOk(cat', cat'[j], Bump(due, k.parent, 1), Bump(fdue, k.parent, FolderWeight(e))) {
      if j != k {
        assert CountOk(cat, cat[j], due, fdue);
      }
    }
  }

  lemma NotIn(cat: Cat, k: Key, p: nat)
    requires k !in cat
    ensures k !in Children(cat, p) && k !in Subfolders(cat, p) && k !in Files(cat) && k !in Folders(cat)
  {
  }

  /** A new item in an existing folder, with the next CNID. */
  lemma AddKeeps(cat: Cat, next: nat, files: nat, folders: nat, k: Key, e: Entry)
    requires CatalogOk(cat, next, files, folders) && next + 1 < U32
    requires !e.Thread? && k.name != [] && k !in cat && e.cnid == next && FolderAt(cat, k.parent)
    requires e.Folder? ==> e.valence == 0 && e.folders == 0
    ensures var cat' := Added(cat, k, e);
      && Linked(cat') && Rooted(cat') && IdsBelow(cat', next + 1)
      && Counted(cat', map[k.parent := 1], map[k.parent := FolderWeight(e)])
      && |Files(cat')| == files + 1 - FolderWeight(e) && |Folders(cat')| == folders + 1 + FolderWeight(e)
      && FolderAt(cat', k.parent)
  {
    hide Children, Subfolders, Files, Folders, Linked, Counted;
    IdUnused(cat, next, next);
    ParentId(cat, next, k.parent);
    AddLinked(cat, k, e);
    AddSizes(cat, k, e);
    NoChildren(cat, next, next);
    assert Bump(map[], k.parent, 1) == map[k.parent := 1] &&
      Bump(map[], k.parent, FolderWeight(e)) == map[k.parent := FolderWeight(e)];
    hide Added, Rooted, IdsBelow;
    if e.Folder? {
      NewFolderOk(cat, next, k, e);
    }
    AddCounted(cat, k, e, map[], map[]);
    AddRooted(cat, next, k, e);
  }

  /** A new folder is empty. */
  lemma NewFolderOk(cat: Cat, next: nat, k: Key, e: Entry)
    requires Linked(cat) && Rooted(cat) && IdsBelow(cat, next)
    requires Fresh(cat, k, e) && e.Folder? && e.cnid == next && e.valence == 0 && e.folders == 0
    requires FolderAt(cat, k.parent)
    ensures CountOk(Added(cat, k, e), e, Bump(map[], k.parent, 1), Bump(map[], k.parent, 1))
  {
    hide Children, Subfolders, Added, Linked;
    AddSizes(cat, k, e);
    NoChildren(cat, next, next);
    ParentId(cat, next, k.parent);
  }

  lemma AddRooted(cat: Cat, next: nat, k: Key, e: Entry)
    requires Rooted(cat) && IdsBelow(cat, next) && next + 1 < U32
    requires Fresh(cat, k, e) && e.cnid == next && FolderAt(cat, k.parent) && k.parent != ROOT_PARENT
    ensures Rooted(Added(cat, k, e)) && IdsBelow(Added(cat, k, e), next + 1) && FolderAt(Added(cat, k, e), k.parent)
  {
    var cat' := Added(cat, k, e);
    forall j | IsItem(cat', j) ensures (j.parent == ROOT_PARENT <==> Id(cat'[j]) == ROOT_FOLDER)
      && (Id(cat'[j]) != ROOT_FOLDER ==> FolderAt(cat', j.parent))
      && (Id(cat'[j]) == ROOT_FOLDER || FIRST_USER_ID <= Id(cat'[j]) < next + 1)
    {
      assert j != k ==> IsItem(cat, j);
    }
  }

  lemma ThreadId(cat: Cat, next: nat, c: nat)
    requires Linked(cat) && IdsBelow(cat, next) && ThreadKey(c) in cat
    ensures c == ROOT_FOLDER || FIRST_USER_ID <= c < next
  {
    assert cat[ThreadKey(c)].Thread? ==> ThreadLinked(cat, ThreadKey(c));
  }

  lemma IdUnused(cat: Cat, next: nat, c: nat)
    requires Linked(cat) && IdsBelow(cat, next) && c >= next
    ensures ThreadKey(c) !in cat
  {
    if ThreadKey(c) in cat {
      ThreadId(cat, next, c);
    }
  }

  /** A folder's CNID is never 1. */
  lemma ParentId(cat: Cat, next: nat, p: nat)
    requires Linked(cat) && IdsBelow(cat, next) && FolderAt(cat, p)
    ensures p == ROOT_FOLDER || FIRST_USER_ID <= p < next
  {
    assert ThreadLinked(cat, ThreadKey(p));
  }

  lemma NoChildren(cat: Cat, next: nat, c: nat)
    requires Linked(cat) && Rooted(cat) && IdsBelow(cat, next) && c >= next
    ensures Children(cat, c) == {} && Subfolders(cat, c) == {}
  {
    forall k | IsItem(cat, k) ensures k.parent != c {
      if Id(cat[k]) != ROOT_FOLDER {
        ParentId(cat, next, k.parent);
      }
    }
  }

  // ---- removing an item ----

  function Removed(cat: Cat, k: Key): Cat
    requires k in cat
  {
    cat - {k, ThreadKey(Id(cat[k]))}
  }

  lemma RemoveLinked(cat: Cat, k: Key)
    requires Linked(cat) && IsItem(cat, k)
    ensures Linked(Removed(cat, k))
    ensures k !in Removed(cat, k) && ThreadKey(Id(cat[k])) !in Removed(cat, k)
  {
    var cat' := Removed(cat, k);
    assert ItemLinked(cat, k);
    forall j | j in cat' && !cat'[j].Thread? ensures ItemLinked(cat', j) {
      assert ItemLinked(cat, j);
    }
    forall j | j in cat' && cat'[j].Thread? ensures ThreadLinked(cat', j) {
      assert ThreadLinked(cat, j);
    }
  }

  lemma RemoveSets(cat: Cat, k: Key)
    requires Linked(cat) && IsItem(cat, k)
    ensures forall p: nat :: Children(Removed(cat, k), p) == Children(cat, p) - (if p == k.parent then {k} else {})
    ensures forall p: nat ::
      Subfolders(Removed(cat, k), p) == Subfolders(cat, p) - (if p == k.parent && cat[k].Folder? then {k} else {})
    ensures Files(Removed(cat, k)) == Files(cat) - (if cat[k].File? then {k} else {})
    ensures Folders(Removed(cat, k)) == Folders(cat) - (if cat[k].Folder? then {k} else {})
    ensures k in Children(cat, k.parent) && (cat[k].Folder? ==> k in Subfolders(cat, k.parent) && k in Folders(cat))
    ensures (cat[k].File? ==> k in Files(cat))
  {
    assert ItemLinked(cat, k);
  }

  lemma RemoveSizes(cat: Cat, k: Key)
    requires Linked(cat) && IsItem(cat, k)
    ensures forall p: nat :: |Children(Removed(cat, k), p)| == |Children(cat, p)| - At(p, k.parent)
    ensures forall p: nat ::
      |Subfolders(Removed(cat, k), p)| == |Subfolders(cat, p)| - FolderWeight(cat[k]) * At(p, k.parent)
    ensures |Files(Removed(cat, k))| == |Files(cat)| - (if cat[k].File? then 1 else 0)
    ensures |Folders(Removed(cat, k))| == |Folders(cat)| - FolderWeight(cat[k])
  {
    hide Children, Subfolders, Files, Folders, Removed, Linked;
    RemoveSets(cat, k);
    var cut := Removed(cat, k);
    forall p: nat ensures |Children(cut, p)| == |Children(cat, p)| - At(p, k.parent)
      && |Subfolders(cut, p)| == |Subfolders(cat, p)| - FolderWeight(cat[k]) * At(p, k.parent)
    {
    }
  }

  lemma RemoveCounted(cat: Cat, k: Key, due: map<nat, int>, fdue: map<nat, int>)
    requires Linked(cat) && IsItem(cat, k) && Counted(cat, due, fdue)
    ensures Counted(Removed(cat, k), Bump(due, k.parent, -1), Bump(fdue, k.parent, -FolderWeight(cat[k])))
  {
    hide Children, Subfolders, Linked;
    var cat' := Removed(cat, k);
    RemoveSizes(cat, k);
    forall j | j in cat' && cat'[j].Folder?
      ensures CountOk(cat', cat'[j], Bump(due, k.parent, -1), Bump(fdue, k.parent, -FolderWeight(cat[k]))) {
      assert CountOk(cat, cat[j], due, fdue);
    }
  }

  /** A file, or a folder without children, leaves its folder. */
  lemma RemoveKeeps(cat: Cat, next: nat, files: nat, folders: nat, k: Key)
    requires CatalogOk(cat, next, files, folders) && IsItem(cat, k) && Id(cat[k]) != ROOT_FOLDER
    requires cat[k].Folder? ==> Children(cat, cat[k].cnid) == {}
    ensures var cat' := Removed(cat, k);
      && Linked(cat') && Rooted(cat') && IdsBelow(cat', next)
      && Counted(cat', map[k.parent := -1], map[k.parent := -FolderWeight(cat[k])])
      && |Files(cat')| == files - 1 + FolderWeight(cat[k]) && |Folders(cat')| == folders + 1 - FolderWeight(cat[k])
      && FolderAt(cat', k.parent)
  {
    hide Children, Subfolders, Files, Folders, Linked, Counted;
    RemoveLinked(cat, k);
    RemoveSizes(cat, k);
    assert Bump(map[], k.parent, -1) == map[k.parent := -1] &&
      Bump(map[], k.parent, -FolderWeight(cat[k])) == map[k.parent := -FolderWeight(cat[k])];
    RemoveCounted(cat, k, map[], map[]);
    RemoveRooted(cat, next, k);
  }

  lemma RemoveRooted(cat: Cat, next: nat, k: Key)
    requires Linked(cat) && Rooted(cat) && IdsBelow(cat, next) && IsItem(cat, k) && Id(cat[k]) != ROOT_FOLDER
    requires cat[k].Folder? ==> Children(cat, cat[k].cnid) == {}
    ensures Rooted(Removed(cat, k)) && IdsBelow(Removed(cat, k), next) && FolderAt(Removed(cat, k), k.parent)
  {
    var cat' := Removed(cat, k);
    RemoveFolders(cat, k);
    assert ItemLinked(cat, k) && IsItem(cat, k);
    hide Linked, FolderAt, Children;
    forall j | IsItem(cat', j) ensures (j.parent == ROOT_PARENT <==> Id(cat'[j]) == ROOT_FOLDER) {
      assert IsItem(cat, j);
    }
  }

  /** An item lies in another folder than an empty one. */
  lemma NotInEmpty(cat: Cat, k: Key, j: Key)
    requires Rooted(cat) && IsItem(cat, k) && IsItem(cat, j) && Id(cat[j]) != ROOT_FOLDER && ItemLinked(cat, k)
    requires cat[k].Folder? ==> Children(cat, cat[k].cnid) == {}
    ensures FolderAt(cat, j.parent) && j.parent != Id(cat[k])
  {
    assert FolderAt(cat, j.parent);
    assert cat[k].Folder? ==> j !in Children(cat, cat[k].cnid);
  }

  lemma FolderLeft(cat: Cat, k: Key, p: nat)
    requires IsItem(cat, k) && k.name != [] && FolderAt(cat, p) && p != Id(cat[k])
    ensures FolderAt(Removed(cat, k), p)
  {
  }

  /** The folders that hold items stay. */
  lemma RemoveFolders(cat: Cat, k: Key)
    requires Linked(cat) && Rooted(cat) && IsItem(cat, k) && Id(cat[k]) != ROOT_FOLDER
    requires cat[k].Folder? ==> Children(cat, cat[k].cnid) == {}
    ensures FolderAt(Removed(cat, k), ROOT_FOLDER)
    ensures forall j :: IsItem(cat, j) && Id(cat[j]) != ROOT_FOLDER ==> FolderAt(Removed(cat, k), j.parent)
  {
    assert ItemLinked(cat, k);
    FolderLeft(cat, k, ROOT_FOLDER);
    hide Linked, Removed, FolderAt, Children;
    forall j | IsItem(cat, j) && Id(cat[j]) != ROOT_FOLDER ensures FolderAt(Removed(cat, k), j.parent) {
      NotInEmpty(cat, k, j);
      FolderLeft(cat, k, j.parent);
    }
  }

  // ---- moving an item ----

  function Moved(cat: Cat, k: Key, to: Key): Cat
    requires k in cat
  {
    Added(Removed(cat, k), to, cat[k])
  }

  lemma MoveLinked(cat: Cat, k: Key, to: Key)
    requires Linked(cat) && IsItem(cat, k) && to.name != [] && to !in Removed(cat, k)
    ensures Linked(Moved(cat, k, to)) && Fresh(Removed(cat, k), to, cat[k])
  {
    RemoveLinked(cat, k);
    AddLinked(Removed(cat, k), to, cat[k]);
  }

  lemma MoveSets(cat: Cat, k: Key, to: Key)
    requires Linked(cat) && IsItem(cat, k) && to.name != [] && to !in Removed(cat, k)
    ensures var cat' := Moved(cat, k, to);
      && (forall p: nat :: |Children(cat', p)| == |Children(cat, p)| - At(p, k.parent) + At(p, to.parent))
      && (forall p: nat ::
          |Subfolders(cat', p)| ==
            |Subfolders(cat, p)| - FolderWeight(cat[k]) * At(p, k.parent) + FolderWeight(cat[k]) * At(p, to.parent))
      && |Files(cat')| == |Files(cat)| && |Folders(cat')| == |Folders(cat)|
  {
    hide Children, Subfolders, Files, Folders;
    MoveLinked(cat, k, to);
    var cut := Removed(cat, k);
    RemoveSizes(cat, k);
    AddSizes(cut, to, cat[k]);
  }

  function MoveDue(from: nat, to: nat, w: int): map<nat, int> {
    Bump(Bump(map[], from, -w), to, w)
  }

  /** Renaming keeps every claim; the two parents are due their adjustments. */
  lemma MoveKeeps(cat: Cat, next: nat, files: nat, folders: nat, k: Key, to: Key)
    requires CatalogOk(cat, next, files, folders) && IsItem(cat, k)
    requires to.name != [] && to !in Removed(cat, k)
    requires if Id(cat[k]) == ROOT_FOLDER then to.parent == ROOT_PARENT else FolderAt(cat, to.parent)
    ensures var cat' := Moved(cat, k, to);
      && Linked(cat') && Rooted(cat') && IdsBelow(cat', next)
      && Counted(cat', MoveDue(k.parent, to.parent, 1), MoveDue(k.parent, to.parent, FolderWeight(cat[k])))
      && |Files(cat')| == files && |Folders(cat')| == folders + 1
      && (Id(cat[k]) != ROOT_FOLDER ==> FolderAt(cat', k.parent) && FolderAt(cat', to.parent))
  {
    hide Children, Subfolders, Files, Folders, Linked, Moved, Removed, Rooted, IdsBelow, MoveDue, Counted, FolderAt;
    MoveLinked(cat, k, to);
    MoveSets(cat, k, to);
    MoveRooted(cat, next, k, to);
    MoveCounted(cat, k, to);
  }

  lemma MoveCounted(cat: Cat, k: Key, to: Key)
    requires Linked(cat) && IsItem(cat, k) && to.name != [] && to !in Removed(cat, k) && Counted(cat, map[], map[])
    ensures Counted(Moved(cat, k, to), MoveDue(k.parent, to.parent, 1),
      MoveDue(k.parent, to.parent, FolderWeight(cat[k])))
  {
    hide Children, Subfolders, Linked;
    var cat' := Moved(cat, k, to);
    MoveSets(cat, k, to);
    var due, fdue := MoveDue(k.parent, to.parent, 1), MoveDue(k.parent, to.parent, FolderWeight(cat[k]));
    MoveDues(k.parent, to.parent, 1);
    MoveDues(k.parent, to.parent, FolderWeight(cat[k]));
    MovedFrom(cat, k, to);
    hide Moved, MoveDue, Due;
    assert Due(map[], 0) == 0;
    forall j | j in cat' && cat'[j].Folder? ensures CountOk(cat', cat'[j], due, fdue) {
      var was := if j == to then k else j;
      assert CountOk(cat, cat[was], map[], map[]);
      MoveCount(cat, cat', cat'[j], k, to);
    }
  }

  lemma MoveCount(cat: Cat, cat': Cat, e: Entry, k: Key, to: Key)
    requires e.Folder? && CountOk(cat, e, map[], map[]) && IsItem(cat, k)
    requires forall p: nat :: |Children(cat', p)| == |Children(cat, p)| - At(p, k.parent) + At(p, to.parent)
    requires forall p: nat ::
      |Subfolders(cat', p)| ==
        |Subfolders(cat, p)| - FolderWeight(cat[k]) * At(p, k.parent) + FolderWeight(cat[k]) * At(p, to.parent)
    ensures CountOk(cat', e, MoveDue(k.parent, to.parent, 1), MoveDue(k.parent, to.parent, FolderWeight(cat[k])))
  {
    hide Children, Subfolders;
    MoveDues(k.parent, to.parent, 1);
    MoveDues(k.parent, to.parent, FolderWeight(cat[k]));
  }

  lemma MoveDues(from: nat, to: nat, w: int)
    ensures forall p: nat :: Due(MoveDue(from, to, w), p) == w * At(p, to) - w * At(p, from)
  {
  }

  /** Every record of the new catalog that is not a thread stood in the old one. */
  lemma MovedFrom(cat: Cat, k: Key, to: Key)
    requires IsItem(cat, k)
    ensures forall j :: j in Moved(cat, k, to) && !Moved(cat, k, to)[j].Thread? ==>
      var was := if j == to then k else j; was in cat && Moved(cat, k, to)[j] == cat[was]
  {
  }

  lemma MoveRooted(cat: Cat, next: nat, k: Key, to: Key)
    requires Linked(cat) && Rooted(cat) && IdsBelow(cat, next) && IsItem(cat, k) && to.name != []
    requires to !in Removed(cat, k)
    requires if Id(cat[k]) == ROOT_FOLDER then to.parent == ROOT_PARENT else FolderAt(cat, to.parent)
    ensures var cat' := Moved(cat, k, to);
      && Rooted(cat') && IdsBelow(cat', next)
      && (Id(cat[k]) != ROOT_FOLDER ==> FolderAt(cat', k.parent) && FolderAt(cat', to.parent))
  {
    var cat' := Moved(cat, k, to);
    assert ItemLinked(cat, k);
    forall c: nat | FolderAt(cat, c) ensures FolderAt(cat', c) {
      assert c == Id(cat[k]) ==> cat[k].Folder?;
    }
    if Id(cat[k]) != ROOT_FOLDER {
      ParentId(cat, next, to.parent);
    }
    forall j | IsItem(cat', j) ensures (j.parent == ROOT_PARENT <==> Id(cat'[j]) == ROOT_FOLDER)
      && (Id(cat'[j]) != ROOT_FOLDER ==> FolderAt(cat', j.parent))
      && (Id(cat'[j]) == ROOT_FOLDER || FIRST_USER_ID <= Id(cat'[j]) < next)
    {
      assert j != to ==> IsItem(cat, j);
    }
  }

  // ---- adjusting a folder's counts ----

  function AddU32(u: nat, d: int): nat {
    (u + d) % U32
  }

  /** The key of the folder with this CNID, by its thread. */
  function FolderKey(cat: Cat, p: nat): Key
    requires FolderAt(cat, p)
  {
    Key(cat[ThreadKey(p)].parent, cat[ThreadKey(p)].name)
  }

  lemma FolderFound(cat: Cat, p: nat)
    requires Linked(cat) && FolderAt(cat, p)
    ensures FolderKey(cat, p) in cat && cat[FolderKey(cat, p)].Folder? && cat[FolderKey(cat, p)].cnid == p
  {
    assert ThreadLinked(cat, ThreadKey(p));
    var k := FolderKey(cat, p);
    assert ItemLinked(cat, k);
  }

  function PatchedEntry(e: Entry, d: int, fd: int): Entry {
    if e.Folder? then e.(valence := AddU32(e.valence, d),
      folders := if e.counted then AddU32(e.folders, fd) else e.folders) else e
  }

  function Patched(cat: Cat, p: nat, d: int, fd: int): Cat
    requires FolderAt(cat, p) && FolderKey(cat, p) in cat
  {
    cat[FolderKey(cat, p) := PatchedEntry(cat[FolderKey(cat, p)], d, fd)]
  }

  /** Patching one folder's record moves no record and changes no other. */
  lemma PatchShape(cat: Cat, next: nat, p: nat, d: int, fd: int)
    requires Linked(cat) && Rooted(cat) && IdsBelow(cat, next) && FolderAt(cat, p)
    ensures FolderKey(cat, p) in cat && cat[FolderKey(cat, p)].Folder? && cat[FolderKey(cat, p)].cnid == p
    ensures var cat' := Patched(cat, p, d, fd);
      && Linked(cat') && Rooted(cat') && IdsBelow(cat', next)
      && (forall c: nat :: FolderAt(cat, c) ==> FolderAt(cat', c))
      && (forall c: nat :: Children(cat', c) == Children(cat, c) && Subfolders(cat', c) == Subfolders(cat, c))
      && Files(cat') == Files(cat) && Folders(cat') == Folders(cat)
  {
    hide Linked, Rooted, IdsBelow, FolderAt, Children, Subfolders, Files, Folders, Patched, FolderKey, Alike;
    FolderFound(cat, p);
    PatchAlike(cat, p, d, fd);
    AlikeLinked(cat, Patched(cat, p, d, fd));
    AlikeSets(cat, Patched(cat, p, d, fd));
  }

  lemma PatchAlike(cat: Cat, p: nat, d: int, fd: int)
    requires FolderAt(cat, p) && FolderKey(cat, p) in cat
    ensures Alike(cat, Patched(cat, p, d, fd))
  {
    hide AddU32;
    var k := FolderKey(cat, p);
    var cat' := Patched(cat, p, d, fd);
    assert cat'.Keys == cat.Keys;
    forall j | j in cat ensures cat'[j] == if j == k then PatchedEntry(cat[k], d, fd) else cat[j] {
    }
  }

  /** The same keys, with records of the same kinds and CNIDs, and the same threads. */
  ghost predicate Alike(cat: Cat, cat': Cat) {
    && cat'.Keys == cat.Keys
    && forall j :: j in cat ==>
      && (cat'[j].Thread? <==> cat[j].Thread?) && (cat'[j].Folder? <==> cat[j].Folder?)
      && Id(cat'[j]) == Id(cat[j]) && (cat[j].Thread? ==> cat'[j] == cat[j])
  }

  lemma AlikeLinked(cat: Cat, cat': Cat)
    requires Alike(cat, cat') && Linked(cat)
    ensures Linked(cat')
  {
    forall j | j in cat' && !cat'[j].Thread? ensures ItemLinked(cat', j) {
      assert ItemLinked(cat, j);
    }
    forall j | j in cat' && cat'[j].Thread? ensures ThreadLinked(cat', j) {
      assert ThreadLinked(cat, j);
    }
  }

  lemma AlikeSets(cat: Cat, cat': Cat)
    requires Alike(cat, cat')
    ensures Rooted(cat) ==> Rooted(cat')
    ensures forall next: nat :: IdsBelow(cat, next) ==> IdsBelow(cat', next)
    ensures forall c: nat :: FolderAt(cat, c) ==> FolderAt(cat', c)
    ensures forall c: nat :: Children(cat', c) == Children(cat, c) && Subfolders(cat', c) == Subfolders(cat, c)
    ensures Files(cat') == Files(cat) && Folders(cat') == Folders(cat)
  {
    forall j ensures IsItem(cat', j) <==> IsItem(cat, j) {
    }
  }

  /** The adjustment due to a folder, made. */
  lemma PatchCounted(cat: Cat, next: nat, p: nat, d: int, fd: int, due: map<nat, int>, fdue: map<nat, int>)
    requires Linked(cat) && Rooted(cat) && IdsBelow(cat, next) && FolderAt(cat, p) && Counted(cat, due, fdue)
    requires Due(due, p) == d && Due(fdue, p) == fd
    ensures FolderKey(cat, p) in cat
    ensures Counted(Patched(cat, p, d, fd), due[p := 0], fdue[p := 0])
  {
    hide Children, Subfolders, Files, Folders, Linked;
    PatchShape(cat, next, p, d, fd);
    CountsFit(cat, next, p);
    var k := FolderKey(cat, p);
    var cat' := Patched(cat, p, d, fd);
    assert CountOk(cat, cat[k], due, fdue);
    forall j | j in cat' && cat'[j].Folder? ensures CountOk(cat', cat'[j], due[p := 0], fdue[p := 0]) {
      assert CountOk(cat, cat[j], due, fdue);
      if j != k && cat[j].cnid == p {
        SameId(cat, j, k);
      }
    }
  }

  // ---- which folders keep a folder count ----

  /** Every folder keeps a count of its subfolders, or none does. */
  ghost predicate Flagged(cat: Cat, counted: bool) {
    forall k :: k in cat && cat[k].Folder? ==> cat[k].counted == counted
  }

  lemma AddFlagged(cat: Cat, k: Key, e: Entry, counted: bool)
    requires Flagged(cat, counted) && (e.Folder? ==> e.counted == counted)
    ensures Flagged(Added(cat, k, e), counted)
  {
  }

  lemma RemoveFlagged(cat: Cat, k: Key, counted: bool)
    requires Flagged(cat, counted) && k in cat
    ensures Flagged(Removed(cat, k), counted)
  {
  }

  lemma PatchFlagged(cat: Cat, p: nat, d: int, fd: int, counted: bool)
    requires Flagged(cat, counted) && FolderAt(cat, p) && FolderKey(cat, p) in cat
    ensures Flagged(Patched(cat, p, d, fd), counted)
  {
    hide AddU32;
  }

  lemma NothingDue(cat: Cat, due: map<nat, int>, fdue: map<nat, int>)
    requires Counted(cat, due, fdue)
    requires forall c: nat :: Due(due, c) == 0 && Due(fdue, c) == 0
    ensures Counted(cat, map[], map[])
  {
    forall k | k in cat && cat[k].Folder? ensures CountOk(cat, cat[k], map[], map[]) {
      assert CountOk(cat, cat[k], due, fdue);
    }
  }
}
