/** When a deletion goes through: whether the index nodes it rewrites have room for the keys they take, and the
    receiver of a rotation for its record. Everything is asked of the tree before the deletion. */
module Mending {
  import opened Nodes
  import opened Rows
  import opened Edits
  import opened Steps
  import opened Search
  import opened LeafEdits
  import opened Trees
  import opened Deletes
  import opened Descents
  import opened Repairs
  import opened Rooms

  // ---- refreshing index keys ----

  /** The record of `path[level]` that names `path[level + 1]`, in reach. */
  ghost predicate Refreshable(nodes: Img, path: seq<nat>, ci: seq<nat>, level: nat) {
    && level + 1 < |path| && level < |ci| && path[level] in nodes && ci[level] < |Recs(nodes, path[level])|
    && Recs(nodes, path[level + 1]) != []
  }

  /** The nodes above `path[level]` have room for its first key, as far up as it is a first key. */
  ghost predicate RefreshRoom(nodes: Img, nodeSize: nat, path: seq<nat>, ci: seq<nat>, level: nat)
    decreases level
  {
    level == 0 || !Refreshable(nodes, path, ci, level - 1) ||
    (var p, x := path[level - 1], ci[level - 1];
     var nodes' := RefreshImg(nodes, p, x, path[level]);
     Fits(nodeSize, Recs(nodes', p)) && (x != 0 || RefreshRoom(nodes', nodeSize, path, ci, level - 1)))
  }

  /** The image once these keys are refreshed. */
  ghost function Refreshed(nodes: Img, path: seq<nat>, ci: seq<nat>, level: nat): Img
    decreases level
  {
    if level == 0 || !Refreshable(nodes, path, ci, level - 1) then nodes
    else
      var nodes' := RefreshImg(nodes, path[level - 1], ci[level - 1], path[level]);
      if ci[level - 1] != 0 then nodes' else Refreshed(nodes', path, ci, level - 1)
  }

  lemma NothingToRefresh(nodes: Img, nodeSize: nat, path: seq<nat>, ci: seq<nat>, level: nat)
    requires level == 0 || (level < |path| && Recs(nodes, path[level]) == [])
    ensures RefreshRoom(nodes, nodeSize, path, ci, level) && Refreshed(nodes, path, ci, level) == nodes
  {
  }

  lemma RefreshFurther(nodes: Img, nodeSize: nat, path: seq<nat>, ci: seq<nat>, level: nat)
    requires 0 < level && Refreshable(nodes, path, ci, level - 1)
    ensures var p, x := path[level - 1], ci[level - 1];
      var nodes' := RefreshImg(nodes, p, x, path[level]);
      && RefreshRoom(nodes, nodeSize, path, ci, level) ==
           (Fits(nodeSize, Recs(nodes', p)) && (x != 0 || RefreshRoom(nodes', nodeSize, path, ci, level - 1)))
      && Refreshed(nodes, path, ci, level) == if x != 0 then nodes' else Refreshed(nodes', path, ci, level - 1)
  {
    hide RefreshImg, Fits;
  }

  // ---- merging and rotating ----

  /** Records `sep` and `sep + 1` of node `p` name two nodes, not both empty. */
  ghost predicate Pairs(nodes: Img, p: nat, sep: nat) {
    && p in nodes && sep + 1 < |Recs(nodes, p)|
    && var l, r := Kid(Recs(nodes, p)[sep]), Kid(Recs(nodes, p)[sep + 1]);
       l in nodes && r in nodes && Recs(nodes, l) + Recs(nodes, r) != []
  }

  /** The two nodes fit one, and `p` has room for the first key of the node they become. */
  ghost predicate Joins(nodes: Img, nodeSize: nat, p: nat, sep: nat) {
    && Pairs(nodes, p, sep)
    && var l, r := Kid(Recs(nodes, p)[sep]), Kid(Recs(nodes, p)[sep + 1]);
       Fits(nodeSize, Recs(nodes, l) + Recs(nodes, r)) && Fits(nodeSize, MergedParent(nodes, p, l, r, sep))
  }

  ghost function Joined(nodes: Img, p: nat, sep: nat): Img {
    if Pairs(nodes, p, sep)
    then MergeImg(nodes, p, Kid(Recs(nodes, p)[sep]), Kid(Recs(nodes, p)[sep + 1]), sep)
    else nodes
  }

  /** The records `ls` and `rs` fit the two nodes, and `p` has room for the first key of `rs`. */
  ghost predicate Shifts(nodes: Img, nodeSize: nat, p: nat, sep: nat, ls: seq<Rec>, rs: seq<Rec>) {
    && rs != [] && Fits(nodeSize, ls) && Fits(nodeSize, rs) && sep + 1 < |Recs(nodes, p)|
    && Fits(nodeSize, Recs(nodes, p)[sep + 1 := IndexRec(rs[0], Kid(Recs(nodes, p)[sep + 1]))])
  }

  /** The left sibling's last record moves to the node at record `x` of `p`. */
  ghost predicate LeftShifts(nodes: Img, nodeSize: nat, p: nat, x: nat) {
    && 0 < x < |Recs(nodes, p)|
    && var left, en := Recs(nodes, Kid(Recs(nodes, p)[x - 1])), Recs(nodes, Kid(Recs(nodes, p)[x]));
       left != [] && Shifts(nodes, nodeSize, p, x - 1, left[..|left| - 1], [left[|left| - 1]] + en)
  }

  /** The right sibling's first record does. */
  ghost predicate RightShifts(nodes: Img, nodeSize: nat, p: nat, x: nat) {
    && x + 1 < |Recs(nodes, p)|
    && var en, right := Recs(nodes, Kid(Recs(nodes, p)[x])), Recs(nodes, Kid(Recs(nodes, p)[x + 1]));
       right != [] && Shifts(nodes, nodeSize, p, x, en + [right[0]], right[1..])
  }

  /** Node `path[level]` is full enough, or the repair that is chosen for it finds room, all the way up. */
  ghost predicate MendRoom(nodes: Img, nodeSize: nat, path: seq<nat>, ci: seq<nat>, level: nat)
    requires level < |path| <= |ci| + 1
    decreases level, 1
  {
    level == 0 || UsedBytes(Recs(nodes, path[level])) >= nodeSize / 2 ||
      ci[level - 1] >= |Recs(nodes, path[level - 1])| ||
    (var p, x := path[level - 1], ci[level - 1];
     match RepairFor(nodes, nodeSize, Recs(nodes, path[level]), Recs(nodes, p), x)
     case MergeLeft => x > 0 && MergeRoom(nodes, nodeSize, path, ci, level, x - 1)
     case MergeRight => MergeRoom(nodes, nodeSize, path, ci, level, x)
     case TakeLeft => LeftShifts(nodes, nodeSize, p, x)
     case TakeRight => RightShifts(nodes, nodeSize, p, x)
     case NoRepair => true)
  }

  /** The merge finds room, and what follows at the parent does. */
  ghost predicate MergeRoom(nodes: Img, nodeSize: nat, path: seq<nat>, ci: seq<nat>, level: nat, sep: nat)
    requires 0 < level < |path| <= |ci| + 1
    decreases level, 0
  {
    && Joins(nodes, nodeSize, path[level - 1], sep)
    && (level == 1 || MendRoom(Joined(nodes, path[level - 1], sep), nodeSize, path, ci, level - 1))
  }

  lemma NoMending(nodes: Img, nodeSize: nat, path: seq<nat>, ci: seq<nat>, level: nat)
    requires level < |path| <= |ci| + 1 && UsedBytes(Recs(nodes, path[level])) >= nodeSize / 2
    ensures MendRoom(nodes, nodeSize, path, ci, level)
  {
  }

  lemma MergeRoomIs(nodes: Img, nodeSize: nat, path: seq<nat>, ci: seq<nat>, level: nat, sep: nat)
    requires 0 < level < |path| <= |ci| + 1
    ensures MergeRoom(nodes, nodeSize, path, ci, level, sep) <==>
      Joins(nodes, nodeSize, path[level - 1], sep) &&
      (level == 1 || MendRoom(Joined(nodes, path[level - 1], sep), nodeSize, path, ci, level - 1))
  {
    hide Joins, Joined;
  }

  lemma MendRoomIs(nodes: Img, nodeSize: nat, path: seq<nat>, ci: seq<nat>, level: nat)
    requires level < |path| <= |ci| + 1
    ensures level == 0 ==> MendRoom(nodes, nodeSize, path, ci, level)
    ensures level > 0 && UsedBytes(Recs(nodes, path[level])) >= nodeSize / 2 ==>
      MendRoom(nodes, nodeSize, path, ci, level)
    ensures
      level > 0 && UsedBytes(Recs(nodes, path[level])) < nodeSize / 2 &&
        ci[level - 1] < |Recs(nodes, path[level - 1])| ==>
      var p, x := path[level - 1], ci[level - 1];
      MendRoom(nodes, nodeSize, path, ci, level) ==
        match RepairFor(nodes, nodeSize, Recs(nodes, path[level]), Recs(nodes, p), x)
        case MergeLeft => x > 0 && MergeRoom(nodes, nodeSize, path, ci, level, x - 1)
        case MergeRight => MergeRoom(nodes, nodeSize, path, ci, level, x)
        case TakeLeft => LeftShifts(nodes, nodeSize, p, x)
        case TakeRight => RightShifts(nodes, nodeSize, p, x)
        case NoRepair => true
  {
    hide RepairFor, Joins, Joined, LeftShifts, RightShifts, UsedBytes;
  }

  /** Record `x` leaves the leaf at the end of the path: its index keys are refreshed if it was the first, and the leaf
      is mended. */
  ghost predicate RemoveRoom(nodes: Img, nodeSize: nat, path: seq<nat>, ci: seq<nat>, x: nat)
    requires 0 < |path| <= |ci| + 1
  {
    var last := |path| - 1;
    var rs := Recs(nodes, path[last]);
    path[last] in nodes && x < |rs| &&
    (last == 0 ||
     (var nodes1 := SetRecs(nodes, path[last], Del(rs, x));
      var first := x == 0 && |rs| > 1;
      (first ==> RefreshRoom(nodes1, nodeSize, path, ci, last)) &&
      MendRoom(if first then Refreshed(nodes1, path, ci, last) else nodes1, nodeSize, path, ci, last)))
  }

  lemma RemoveRoomIs(nodes: Img, rows: seq<seq<nat>>, nodeSize: nat, path: seq<nat>, ci: seq<nat>, pos: seq<nat>,
      x: nat)
    requires |path| == |rows| > 0 && PathTo(nodes, rows, path, ci, pos, |path| - 1)
    requires path[|path| - 1] in nodes && x < |Recs(nodes, path[|path| - 1])|
    ensures |ci| == |path| - 1 && (|path| == 1 ==> RemoveRoom(nodes, nodeSize, path, ci, x))
    ensures |path| > 1 ==>
      var last, rs := |path| - 1, Recs(nodes, path[|path| - 1]);
      var nodes1, first := SetRecs(nodes, path[last], Del(rs, x)), x == 0 && Del(rs, x) != [];
      RemoveRoom(nodes, nodeSize, path, ci, x) <==>
        (first ==> RefreshRoom(nodes1, nodeSize, path, ci, last)) &&
        MendRoom(if first then Refreshed(nodes1, path, ci, last) else nodes1, nodeSize, path, ci, last)
  {
    hide PathOk, RefreshRoom, Refreshed, MendRoom, SetRecs;
  }

  lemma LeafPlace(nodes: Img, path: seq<nat>, p: int, x: nat)
    requires |path| > 0 && AscTo(nodes, path, |path| - 1)
    requires x < |Recs(nodes, path[|path| - 1])| && Recs(nodes, path[|path| - 1])[x].key == p
    ensures Asc(Recs(nodes, path[|path| - 1])) && LowerBound(Recs(nodes, path[|path| - 1]), p) == x
  {
    LowerBoundAt(Recs(nodes, path[|path| - 1]), p, x);
  }

  /** A leaf that stays half full, its first key in place, needs no room elsewhere. */
  lemma KeepsRoom(nodes: Img, nodeSize: nat, path: seq<nat>, ci: seq<nat>, p: int, x: nat)
    requires 0 < |path| <= |ci| + 1 && path[|path| - 1] in nodes && Asc(Recs(nodes, path[|path| - 1]))
    requires x < |Recs(nodes, path[|path| - 1])| && Recs(nodes, path[|path| - 1])[x].key == p
    requires var rs := Recs(nodes, path[|path| - 1]); rs[0].key != p && UsedBytes(Without(rs, p)) >= nodeSize / 2
    ensures RemoveRoom(nodes, nodeSize, path, ci, x)
  {
    hide UsedBytes, Without, RefreshRoom, Refreshed, MendRoom;
    var last, rs := |path| - 1, Recs(nodes, path[|path| - 1]);
    WithoutAt(rs, x);
    if last > 0 {
      NoMending(SetRecs(nodes, path[last], Del(rs, x)), nodeSize, path, ci, last);
    }
  }

  /** The records a descent for `p` picks along a path. */
  function Turns(nodes: Img, path: seq<nat>, p: int): (ci: seq<nat>)
    ensures |ci| == if path == [] then 0 else |path| - 1
  {
    if path == [] then [] else seq(|path| - 1, d requires 0 <= d < |path| - 1 => Pick(Recs(nodes, path[d]), p))
  }

  lemma FollowedTurns(nodes: Img, path: seq<nat>, ci: seq<nat>, p: int)
    requires path != [] && |ci| == |path| - 1 && Followed(nodes, path, ci, p)
    ensures ci == Turns(nodes, path, p)
  {
    hide Pick;
  }
}
