/** The folders as a tree: every item hangs, parent by parent, from the root folder, and that is exactly when a path
    leads to it. `Rename` alone can break this: it does not check whether the target lies below the folder it moves. */
module FolderTree {
  import opened Nodes
  import opened Catalogs
  import opened Volumes

  predicate HasThread(cat: Cat, c: nat) {
    ThreadKey(c) in cat && cat[ThreadKey(c)].Thread?
  }

  /** The folder an item lies in, by its thread. */
  function Up(cat: Cat, c: nat): nat
    requires HasThread(cat, c)
  {
    cat[ThreadKey(c)].parent
  }

  /** At most `n` steps up from `c` lie the root folder. */
  predicate Climbs(cat: Cat, c: nat, n: nat)
    decreases n
  {
    c == ROOT_FOLDER || (n > 0 && HasThread(cat, c) && Climbs(cat, Up(cat, c), n - 1))
  }

  ghost predicate Attached(cat: Cat, c: nat) {
    exists n: nat :: Climbs(cat, c, n)
  }

  /** Every item hangs from the root folder. */
  ghost predicate Treelike(cat: Cat) {
    forall c: nat :: HasThread(cat, c) ==> Attached(cat, c)
  }

  /** At most `n` steps up from `c`, short of the root folder, lies `m`. */
  predicate Passes(cat: Cat, c: nat, m: nat, n: nat)
    decreases n
  {
    c == m || (n > 0 && c != ROOT_FOLDER && HasThread(cat, c) && Passes(cat, Up(cat, c), m, n - 1))
  }

  /** Item `c` is `m`, or lies below it. */
  ghost predicate Under(cat: Cat, m: nat, c: nat) {
    exists n: nat :: Passes(cat, c, m, n)
  }

  /** The threads of all items but `m` are the same. */
  ghost predicate SameThreads(cat: Cat, cat': Cat, m: nat) {
    forall c: nat :: c != m ==>
      (HasThread(cat', c) <==> HasThread(cat, c)) && (HasThread(cat, c) ==> Up(cat', c) == Up(cat, c))
  }

  lemma StepUp(cat: Cat, c: nat)
    requires HasThread(cat, c) && Attached(cat, Up(cat, c))
    ensures Attached(cat, c)
  {
    var n: nat :| Climbs(cat, Up(cat, c), n);
    assert Climbs(cat, c, n + 1);
  }

  // ---- a moved item ----

  /** The climb from `c` in the old catalog leads to the root in the new one, if `m`'s new parent does. */
  lemma {:induction false} ClimbMoved(cat: Cat, cat': Cat, m: nat, c: nat, n: nat)
    requires SameThreads(cat, cat', m) && HasThread(cat', m) && Attached(cat', Up(cat', m))
    requires Climbs(cat, c, n)
    ensures Attached(cat', c)
    decreases n
  {
    if c == ROOT_FOLDER {
      assert Climbs(cat', c, 0);
    } else if c == m {
      StepUp(cat', m);
    } else {
      ClimbMoved(cat, cat', m, Up(cat, c), n - 1);
      StepUp(cat', c);
    }
  }

  /** A climb that does not pass `m` is the same in the new catalog. */
  lemma {:induction false} ClimbAside(cat: Cat, cat': Cat, m: nat, c: nat, n: nat)
    requires SameThreads(cat, cat', m) && Climbs(cat, c, n) && !Passes(cat, c, m, n)
    ensures Climbs(cat', c, n)
    decreases n
  {
    if c != ROOT_FOLDER {
      ClimbAside(cat, cat', m, Up(cat, c), n - 1);
    }
  }

  /** What lies below `m` goes round in circles once `m` lies below itself. */
  lemma {:induction false} NeverUp(cat: Cat, cat': Cat, m: nat, c: nat, j: nat, i: nat, n: nat)
    requires SameThreads(cat, cat', m) && HasThread(cat', m) && m != ROOT_FOLDER
    requires Passes(cat, Up(cat', m), m, j) && Passes(cat, c, m, i)
    ensures !Climbs(cat', c, n)
    decreases n
  {
    if n > 0 {
      if c == m {
        NeverUp(cat, cat', m, Up(cat', m), j, j, n - 1);
      } else {
        NeverUp(cat, cat', m, Up(cat, c), j, i - 1, n - 1);
      }
    }
  }

  /** Moving item `m`: still a tree exactly if the new parent is not `m` or below it. */
  lemma MoveTree(cat: Cat, cat': Cat, m: nat)
    requires Treelike(cat) && SameThreads(cat, cat', m) && HasThread(cat', m) && m != ROOT_FOLDER
    requires HasThread(cat, Up(cat', m))
    ensures Treelike(cat') <==> !Under(cat, m, Up(cat', m))
  {
    hide SameThreads, HasThread, Up, Passes, Climbs;
    var p := Up(cat', m);
    if j: nat :| Passes(cat, p, m, j) {
      forall n: nat ensures !Climbs(cat', p, n) {
        NeverUp(cat, cat', m, p, j, j, n);
      }
      ThreadKept(cat, cat', m, p);
    } else {
      var n: nat :| Climbs(cat, p, n);
      ClimbAside(cat, cat', m, p, n);
      forall c: nat | HasThread(cat', c) ensures Attached(cat', c) {
        if c == m {
          StepUp(cat', m);
        } else {
          ThreadKept(cat, cat', m, c);
          var i: nat :| Climbs(cat, c, i);
          ClimbMoved(cat, cat', m, c, i);
        }
      }
    }
  }

  lemma ThreadKept(cat: Cat, cat': Cat, m: nat, c: nat)
    requires SameThreads(cat, cat', m) && HasThread(cat', m)
    ensures HasThread(cat, c) ==> HasThread(cat', c)
    ensures c != m && HasThread(cat', c) ==> HasThread(cat, c)
  {
  }

  // ---- the operations ----

  lemma PatchThreads(cat: Cat, p: nat, d: int, fd: int)
    requires FolderAt(cat, p) && FolderKey(cat, p) in cat
    ensures forall c: nat :: HasThread(Patched(cat, p, d, fd), c) <==> HasThread(cat, c)
    ensures forall c: nat :: HasThread(cat, c) ==> Up(Patched(cat, p, d, fd), c) == Up(cat, c)
  {
    hide AddU32;
  }

  /** The same threads: the same tree. */
  lemma TreeSame(cat: Cat, cat': Cat)
    requires forall c: nat ::
      (HasThread(cat', c) <==> HasThread(cat, c)) && (HasThread(cat, c) ==> Up(cat', c) == Up(cat, c))
    requires Treelike(cat)
    ensures Treelike(cat')
  {
    hide HasThread, Up;
    forall c: nat | HasThread(cat', c) ensures Attached(cat', c) {
      var n: nat :| Climbs(cat, c, n);
      ClimbSame(cat, cat', c, n);
    }
  }

  lemma {:induction false} ClimbSame(cat: Cat, cat': Cat, c: nat, n: nat)
    requires forall c: nat ::
      (HasThread(cat', c) <==> HasThread(cat, c)) && (HasThread(cat, c) ==> Up(cat', c) == Up(cat, c))
    requires Climbs(cat, c, n)
    ensures Climbs(cat', c, n)
    decreases n
  {
    hide HasThread, Up;
    if c != ROOT_FOLDER {
      ClimbSame(cat, cat', Up(cat, c), n - 1);
    }
  }

  lemma AddThreads(cat: Cat, k: Key, e: Entry)
    requires Fresh(cat, k, e)
    ensures SameThreads(cat, Added(cat, k, e), e.cnid)
    ensures HasThread(Added(cat, k, e), e.cnid) && Up(Added(cat, k, e), e.cnid) == k.parent
  {
  }

  /** A new file or folder hangs from its parent. */
  lemma CreatedTree(cat0: Cat, cat1: Cat, k: Key, e: Entry, fd: int)
    requires Treelike(cat0) && Fresh(cat0, k, e) && FolderAt(cat0, k.parent) && Created(cat0, cat1, k, e, fd)
    ensures Treelike(cat1)
  {
    hide Added, Patched, Climbs;
    var a := Added(cat0, k, e);
    AddThreads(cat0, k, e);
    forall c: nat | HasThread(a, c) ensures Attached(a, c) {
      var p := if c == e.cnid then k.parent else c;
      assert HasThread(cat0, p);
      var n: nat :| Climbs(cat0, p, n);
      FreshClimb(cat0, a, k, e, p, n);
      if c == e.cnid {
        StepUp(a, c);
      }
    }
    PatchThreads(a, k.parent, 1, fd);
    TreeSame(a, cat1);
  }

  lemma {:induction false} FreshClimb(cat: Cat, a: Cat, k: Key, e: Entry, c: nat, n: nat)
    requires Fresh(cat, k, e) && a == Added(cat, k, e) && Climbs(cat, c, n)
    ensures Climbs(a, c, n)
    decreases n
  {
    if c != ROOT_FOLDER {
      FreshClimb(cat, a, k, e, Up(cat, c), n - 1);
    }
  }

  /** What is left after a file or an empty folder is removed still hangs from the root. */
  lemma DroppedTree(cat0: Cat, cat1: Cat, next: nat, k: Key)
    requires Treelike(cat0) && Linked(cat0) && Rooted(cat0) && IdsBelow(cat0, next) && IsItem(cat0, k)
    requires FolderAt(cat0, k.parent) && Children(cat0, Id(cat0[k])) == {} && Dropped(cat0, cat1, k)
    ensures Treelike(cat1)
  {
    hide Linked, Rooted, IdsBelow, Climbs, Patched, Removed, Children;
    NotRoot(cat0, next, k);
    var a, m := Removed(cat0, k), Id(cat0[k]);
    RemovedThreads(cat0, k);
    forall c: nat | HasThread(a, c) ensures Attached(a, c) {
      var n: nat :| Climbs(cat0, c, n);
      ClimbLeft(cat0, a, k, c, n);
    }
    PatchThreads(a, k.parent, -1, -FolderWeight(cat0[k]));
    TreeSame(a, cat1);
  }

  lemma RemovedThreads(cat: Cat, k: Key)
    requires Linked(cat) && IsItem(cat, k)
    ensures SameThreads(cat, Removed(cat, k), Id(cat[k])) && !HasThread(Removed(cat, k), Id(cat[k]))
  {
    assert ItemLinked(cat, k);
  }

  lemma {:induction false} ClimbLeft(cat: Cat, a: Cat, k: Key, c: nat, n: nat)
    requires Linked(cat) && IsItem(cat, k) && Children(cat, Id(cat[k])) == {} && SameThreads(cat, a, Id(cat[k]))
    requires Climbs(cat, c, n) && c != Id(cat[k])
    ensures Climbs(a, c, n)
    decreases n
  {
    if c != ROOT_FOLDER {
      hide Children, SameThreads;
      NotInside(cat, k, c);
      ClimbLeft(cat, a, k, Up(cat, c), n - 1);
      SameAt(cat, a, Id(cat[k]), c);
    }
  }

  lemma SameAt(cat: Cat, cat': Cat, m: nat, c: nat)
    requires SameThreads(cat, cat', m) && c != m && HasThread(cat, c)
    ensures HasThread(cat', c) && Up(cat', c) == Up(cat, c)
  {
  }

  /** Nothing lies in an item without children. */
  lemma NotInside(cat: Cat, k: Key, c: nat)
    requires Linked(cat) && IsItem(cat, k) && Children(cat, Id(cat[k])) == {} && HasThread(cat, c)
    ensures Up(cat, c) != Id(cat[k])
  {
    assert ThreadLinked(cat, ThreadKey(c));
    var t := cat[ThreadKey(c)];
    assert Key(t.parent, t.name) !in Children(cat, Id(cat[k]));
  }

  /** `Rename` keeps the tree exactly if the target's folder is not the item moved, nor below it. */
  lemma RenamedTree(cat0: Cat, cat1: Cat, next: nat, k: Key, to: Key)
    requires Treelike(cat0) && Linked(cat0) && Rooted(cat0) && IdsBelow(cat0, next)
    requires IsItem(cat0, k) && FolderAt(cat0, k.parent) && to !in cat0 && to.name != [] && FolderAt(cat0, to.parent)
    requires Renamed(cat0, cat1, k, to)
    ensures Treelike(cat1) <==> !Under(cat0, Id(cat0[k]), to.parent)
  {
    hide Linked, Rooted, IdsBelow, Treelike, Under, Moved, Patched, SameThreads;
    NotRoot(cat0, next, k);
    MovedThreads(cat0, k, to);
    var m := Moved(cat0, k, to);
    MoveTree(cat0, m, Id(cat0[k]));
    if k.parent != to.parent {
      var w := FolderWeight(cat0[k]);
      var m1 := Patched(m, k.parent, -1, -w);
      PatchThreads(m, k.parent, -1, -w);
      PatchThreads(m1, to.parent, 1, w);
      TreeEither(m, m1);
      TreeEither(m1, cat1);
    }
  }

  lemma TreeEither(cat: Cat, cat': Cat)
    requires forall c: nat :: HasThread(cat', c) <==> HasThread(cat, c)
    requires forall c: nat :: HasThread(cat, c) ==> Up(cat', c) == Up(cat, c)
    ensures Treelike(cat) <==> Treelike(cat')
  {
    hide HasThread, Up, Treelike;
    if Treelike(cat) {
      TreeSame(cat, cat');
    }
    if Treelike(cat') {
      TreeSame(cat', cat);
    }
  }

  lemma MovedThreads(cat: Cat, k: Key, to: Key)
    requires Linked(cat) && IsItem(cat, k) && to !in Removed(cat, k) && to.name != []
    ensures var m := Moved(cat, k, to);
      SameThreads(cat, m, Id(cat[k])) && HasThread(m, Id(cat[k])) && Up(m, Id(cat[k])) == to.parent
  {
    assert ItemLinked(cat, k);
  }

  /** A new volume name changes the root folder's thread, which no climb uses. */
  lemma RelabeledTree(cat: Cat, k: Key, to: Key)
    requires Treelike(cat) && Linked(cat) && IsItem(cat, k) && Id(cat[k]) == ROOT_FOLDER
    requires to !in Removed(cat, k) && to.name != []
    ensures Treelike(Moved(cat, k, to))
  {
    hide Moved, Climbs, Removed;
    var m := Moved(cat, k, to);
    MovedThreads(cat, k, to);
    forall c: nat | HasThread(m, c) ensures Attached(m, c) {
      if c == ROOT_FOLDER {
        RootAttached(m);
      } else {
        var n: nat :| Climbs(cat, c, n);
        RootClimb(cat, m, c, n);
      }
    }
  }

  lemma {:induction false} RootClimb(cat: Cat, cat': Cat, c: nat, n: nat)
    requires SameThreads(cat, cat', ROOT_FOLDER) && Climbs(cat, c, n)
    ensures Climbs(cat', c, n)
    decreases n
  {
    if c != ROOT_FOLDER {
      RootClimb(cat, cat', Up(cat, c), n - 1);
    }
  }

  // ---- paths ----

  lemma {:induction false} WalkCat(cat: Cat, c: nat, a: seq<Name>, b: seq<Name>)
    requires Walk(cat, c, a) != 0
    ensures Walk(cat, c, a + b) == Walk(cat, Walk(cat, c, a), b)
    decreases |a|
  {
    if a == [] {
      assert a + b == b;
    } else {
      assert (a + b)[1..] == a[1..] + b && (a + b)[0] == a[0];
      WalkCat(cat, cat[Key(c, a[0])].cnid, a[1..], b);
    }
  }

  /** A path from an attached folder leads to attached folders only. */
  lemma {:induction false} WalkAttached(cat: Cat, c: nat, parts: seq<Name>)
    requires Linked(cat) && Attached(cat, c) && Walk(cat, c, parts) != 0
    ensures Attached(cat, Walk(cat, c, parts))
    decreases |parts|
  {
    if parts != [] {
      var k := Key(c, parts[0]);
      assert ItemLinked(cat, k);
      StepUp(cat, cat[k].cnid);
      WalkAttached(cat, cat[k].cnid, parts[1..]);
    }
  }

  /** A path to a folder the climb from which ends at the root. */
  lemma {:induction false} PathOf(cat: Cat, next: nat, c: nat, n: nat) returns (parts: seq<Name>)
    requires Linked(cat) && Rooted(cat) && IdsBelow(cat, next) && FolderAt(cat, c) && Climbs(cat, c, n)
    ensures Walk(cat, ROOT_FOLDER, parts) == c
    decreases n
  {
    if c == ROOT_FOLDER {
      return [];
    }
    var k := FolderKey(cat, c);
    FolderFound(cat, c);
    assert IsItem(cat, k);
    ParentId(cat, next, k.parent);
    var up := PathOf(cat, next, k.parent, n - 1);
    WalkCat(cat, ROOT_FOLDER, up, [k.name]);
    ParentId(cat, next, c);
    OneStep(cat, k);
    return up + [k.name];
  }

  /** A path leads to folders. */
  lemma {:induction false} WalkFolder(cat: Cat, c: nat, parts: seq<Name>)
    requires Linked(cat) && Rooted(cat) && Walk(cat, c, parts) != 0
    ensures FolderAt(cat, c) ==> FolderAt(cat, Walk(cat, c, parts))
    decreases |parts|
  {
    if parts != [] {
      FolderItem(cat, Key(c, parts[0]));
      WalkFolder(cat, cat[Key(c, parts[0])].cnid, parts[1..]);
    }
  }

  lemma OneStep(cat: Cat, k: Key)
    requires k in cat && cat[k].Folder?
    ensures Walk(cat, k.parent, [k.name]) == cat[k].cnid
  {
    assert [k.name][1..] == [];
  }

  /** A folder has a path exactly if it hangs from the root: after a bad rename the folder moved has none. */
  lemma PathsReach(cat: Cat, next: nat, c: nat)
    requires Linked(cat) && Rooted(cat) && IdsBelow(cat, next) && FolderAt(cat, c)
    ensures (exists parts: seq<Name> :: Walk(cat, ROOT_FOLDER, parts) == c) <==> Attached(cat, c)
  {
    hide Linked, Rooted, IdsBelow, Walk, Climbs;
    ParentId(cat, next, c);
    if n: nat :| Climbs(cat, c, n) {
      var parts := PathOf(cat, next, c, n);
    }
    if parts: seq<Name> :| Walk(cat, ROOT_FOLDER, parts) == c {
      RootAttached(cat);
      WalkAttached(cat, ROOT_FOLDER, parts);
    }
  }

  lemma RootAttached(cat: Cat)
    ensures Attached(cat, ROOT_FOLDER)
  {
    assert Climbs(cat, ROOT_FOLDER, 0);
  }

}
