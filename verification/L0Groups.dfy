/**
 Grouping of level-0 files by overlap of their key ranges (db/column_family.cc), with the
 union-find that the code uses.  Different groups can be compacted at the same time because
 their key ranges, taken as a whole, do not meet.
 */
module L0Groups {

  type Key = int

  datatype File = File(smallest: Key, largest: Key, beingCompacted: bool) {
    predicate Overlaps(other: File) {
      !(largest < other.smallest || other.largest < smallest)
    }
  }

  predicate Active(files: seq<File>, i: nat) {
    i < |files| && !files[i].beingCompacted
  }

  /** Two active files that overlap. */
  predicate Edge(files: seq<File>, i: nat, j: nat) {
    Active(files, i) && Active(files, j) && files[i].Overlaps(files[j])
  }

  // ---------------------------------------------------------------- connected components

  ghost predicate IsPath(files: seq<File>, path: seq<nat>, i: nat, j: nat) {
    && |path| >= 1 && path[0] == i && path[|path| - 1] == j && Active(files, i)
    && forall k :: 0 <= k < |path| - 1 ==> Hop(files, path, k)
  }

  ghost predicate Hop(files: seq<File>, path: seq<nat>, k: nat)
    requires k + 1 < |path|
  {
    Edge(files, path[k], path[k + 1])
  }

  /** There is a chain of overlapping active files from one to the other. */
  ghost predicate Connected(files: seq<File>, i: nat, j: nat) {
    exists path :: IsPath(files, path, i, j)
  }

  /** Two files are neighbours in the graph exactly when both are active and some key is in both. */
  lemma EdgeIsCommonKey(files: seq<File>, i: nat, j: nat)
    requires Active(files, i) && Active(files, j)
    requires files[i].smallest <= files[i].largest && files[j].smallest <= files[j].largest
    ensures Edge(files, i, j) <==>
            exists k: int :: InFile(files[i], k) && InFile(files[j], k)
  {
    if Edge(files, i, j) {
      var k := if files[i].smallest < files[j].smallest then files[j].smallest else files[i].smallest;
      assert InFile(files[i], k) && InFile(files[j], k);
    }
  }

  predicate InFile(f: File, k: int) { f.smallest <= k <= f.largest }

  lemma ConnectedToItself(files: seq<File>, i: nat)
    requires Active(files, i)
    ensures Connected(files, i, i)
  {
    assert IsPath(files, [i], i, i);
  }

  lemma ConnectedStep(files: seq<File>, i: nat, j: nat, k: nat)
    requires Connected(files, i, j) && Edge(files, j, k)
    ensures Connected(files, i, k)
  {
    var path :| IsPath(files, path, i, j);
    var longer := path + [k];
    forall h | 0 <= h < |longer| - 1
      ensures Hop(files, longer, h)
    {
      if h < |path| - 1 {
        assert Hop(files, path, h);
      }
    }
    assert IsPath(files, longer, i, k);
  }

  lemma {:induction false} ConnectedAlong(files: seq<File>, i: nat, path: seq<nat>, j: nat, k: nat)
    requires Connected(files, i, j) && IsPath(files, path, j, k)
    ensures Connected(files, i, k)
    decreases |path|
  {
    if |path| > 1 {
      var shorter := path[..|path| - 1];
      assert Hop(files, path, |path| - 2);
      forall h | 0 <= h < |shorter| - 1
        ensures Hop(files, shorter, h)
      {
        assert Hop(files, path, h);
      }
      ConnectedAlong(files, i, shorter, j, path[|path| - 2]);
      ConnectedStep(files, i, path[|path| - 2], k);
    }
  }

  lemma ConnectedTransitive(files: seq<File>, i: nat, j: nat, k: nat)
    requires Connected(files, i, j) && Connected(files, j, k)
    ensures Connected(files, i, k)
  {
    var path :| IsPath(files, path, j, k);
    ConnectedAlong(files, i, path, j, k);
  }

  lemma {:induction false} PathBack(files: seq<File>, path: seq<nat>, i: nat, j: nat)
    requires IsPath(files, path, i, j)
    ensures Connected(files, j, i) && Active(files, j)
    decreases |path|
  {
    if |path| == 1 {
      ConnectedToItself(files, i);
    } else {
      assert Hop(files, path, 0);
      var rest := path[1..];
      forall h | 0 <= h < |rest| - 1
        ensures Hop(files, rest, h)
      {
        assert Hop(files, path, h + 1);
      }
      PathBack(files, rest, path[1], j);
      ConnectedStep(files, j, path[1], i);
    }
  }

  lemma ConnectedSymmetric(files: seq<File>, i: nat, j: nat)
    requires Connected(files, i, j)
    ensures Connected(files, j, i) && Active(files, i) && Active(files, j)
  {
    var path :| IsPath(files, path, i, j);
    PathBack(files, path, i, j);
  }

  // ---------------------------------------------------------------- disjoint key ranges

  /** File `a` ends before file `c` begins. */
  predicate EndsBefore(files: seq<File>, a: nat, c: nat)
    requires a < |files| && c < |files|
  {
    files[a].largest < files[c].smallest
  }

  /** A chain of overlapping files cannot jump over a file that it does not touch. */
  lemma {:induction false} ChainStaysOnOneSide(files: seq<File>, path: seq<nat>, a: nat, b: nat, c: nat)
    requires IsPath(files, path, a, b) && Active(files, c) && !Connected(files, a, c)
    requires files[c].smallest <= files[c].largest
    ensures Active(files, b) && (EndsBefore(files, a, c) <==> EndsBefore(files, b, c))
    decreases |path|
  {
    if |path| > 1 {
      assert Hop(files, path, 0);
      var rest := path[1..];
      forall h | 0 <= h < |rest| - 1
        ensures Hop(files, rest, h)
      {
        assert Hop(files, path, h + 1);
      }
      ConnectedToItself(files, a);
      ConnectedStep(files, a, a, path[1]);
      if Connected(files, path[1], c) {
        ConnectedTransitive(files, a, path[1], c);
      }
      NotTouching(files, a, c);
      NotTouching(files, path[1], c);
      ChainStaysOnOneSide(files, rest, path[1], b, c);
    }
  }

  lemma NotTouching(files: seq<File>, a: nat, c: nat)
    requires Active(files, a) && Active(files, c) && !Connected(files, a, c)
    ensures EndsBefore(files, a, c) || EndsBefore(files, c, a)
  {
    if Edge(files, a, c) {
      ConnectedToItself(files, a);
      ConnectedStep(files, a, a, c);
    }
  }

  /**
   The key ranges spanned by two different groups do not meet: all of one lies before all of
   the other, and not merely each file of one apart from each file of the other.
   */
  lemma GroupRangesAreDisjoint(files: seq<File>, i: nat, j: nat)
    requires forall k :: 0 <= k < |files| ==> files[k].smallest <= files[k].largest
    requires Active(files, i) && Active(files, j) && !Connected(files, i, j)
    ensures || (forall a: nat, c: nat :: Connected(files, i, a) && Connected(files, j, c) ==>
                  c < |files| && a < |files| && EndsBefore(files, a, c))
            || (forall a: nat, c: nat :: Connected(files, i, a) && Connected(files, j, c) ==>
                  c < |files| && a < |files| && EndsBefore(files, c, a))
  {
    forall a: nat, c: nat | Connected(files, i, a) && Connected(files, j, c)
      ensures c < |files| && a < |files|
      ensures EndsBefore(files, i, j) ==> EndsBefore(files, a, c)
      ensures !EndsBefore(files, i, j) ==> EndsBefore(files, c, a)
    {
      SameSide(files, i, a, j, c);
    }
  }

  lemma SameSide(files: seq<File>, i: nat, a: nat, j: nat, c: nat)
    requires forall k :: 0 <= k < |files| ==> files[k].smallest <= files[k].largest
    requires Active(files, i) && Active(files, j) && !Connected(files, i, j)
    requires Connected(files, i, a) && Connected(files, j, c)
    ensures c < |files| && a < |files|
    ensures EndsBefore(files, i, j) ==> EndsBefore(files, a, c)
    ensures !EndsBefore(files, i, j) ==> EndsBefore(files, c, a)
  {
    ConnectedSymmetric(files, i, a);
    ConnectedSymmetric(files, j, c);
    Apart(files, i, a, j);
    Apart(files, j, c, a);
    var p :| IsPath(files, p, i, a);
    ChainStaysOnOneSide(files, p, i, a, j);
    var q :| IsPath(files, q, j, c);
    ChainStaysOnOneSide(files, q, j, c, a);
    NotTouching(files, a, j);
    NotTouching(files, c, a);
  }

  lemma Apart(files: seq<File>, i: nat, a: nat, j: nat)
    requires Connected(files, i, a) && Active(files, j) && !Connected(files, i, j)
    ensures !Connected(files, a, j) && !Connected(files, j, a)
  {
    if Connected(files, j, a) {
      ConnectedSymmetric(files, j, a);
    }
    if Connected(files, a, j) {
      ConnectedTransitive(files, i, a, j);
    }
  }

  // ---------------------------------------------------------------- union-find

  /**
   Element `x` of a forest: its parent has the same root, ranks grow strictly on the way up,
   and only a root is its own parent.
   */
  ghost predicate Fits(parent: seq<nat>, root: seq<nat>, rank: seq<nat>, x: nat)
    requires |root| == |rank| == |parent| && x < |parent|
  {
    && parent[x] < |parent| && root[x] < |parent|
    && root[parent[x]] == root[x] && root[root[x]] == root[x]
    && (parent[x] == x <==> root[x] == x)
    && (parent[x] != x ==> rank[x] < rank[parent[x]])
    && rank[x] <= rank[root[x]]
  }

  ghost predicate IsForest(parent: seq<nat>, root: seq<nat>, rank: seq<nat>) {
    && |root| == |rank| == |parent|
    && forall x :: 0 <= x < |parent| ==> Fits(parent, root, rank, x)
  }

  /** Pointing an element straight at its root changes no root. */
  lemma Compress(parent: seq<nat>, root: seq<nat>, rank: seq<nat>, x: nat)
    requires IsForest(parent, root, rank) && x < |parent| && parent[x] != x
    ensures root[x] < |parent| && IsForest(parent[x := root[x]], root, rank)
  {
    assert Fits(parent, root, rank, x);
    assert Fits(parent, root, rank, parent[x]);
    var after := parent[x := root[x]];
    forall z | 0 <= z < |parent|
      ensures Fits(after, root, rank, z)
    {
      assert Fits(parent, root, rank, z);
    }
  }

  ghost function MergedRoots(root: seq<nat>, x: nat, y: nat): seq<nat>
    requires x < |root| && y < |root|
  {
    seq(|root|, z requires 0 <= z < |root| => if root[z] == root[x] then root[y] else root[z])
  }

  ghost function MergedRanks(root: seq<nat>, rank: seq<nat>, x: nat, y: nat): seq<nat>
    requires x < |root| == |rank| && y < |root| && root[x] < |root|
  {
    seq(|root|, z requires 0 <= z < |root| => if root[z] == root[y] then rank[z] + rank[root[x]] + 1 else rank[z])
  }

  /** Hanging one root below another merges their two trees. */
  lemma Link(parent: seq<nat>, root: seq<nat>, rank: seq<nat>, x: nat, y: nat)
    requires IsForest(parent, root, rank) && x < |parent| && y < |parent| && root[x] != root[y]
    ensures root[x] < |parent| && root[y] < |parent|
    ensures IsForest(parent[root[x] := root[y]], MergedRoots(root, x, y), MergedRanks(root, rank, x, y))
  {
    assert Fits(parent, root, rank, x);
    assert Fits(parent, root, rank, y);
    assert Fits(parent, root, rank, root[x]);
    var after, roots, ranks := parent[root[x] := root[y]], MergedRoots(root, x, y), MergedRanks(root, rank, x, y);
    forall z | 0 <= z < |parent|
      ensures Fits(after, roots, ranks, z)
    {
      assert Fits(parent, root, rank, z);
    }
  }

  /** How far up the root is at most. */
  ghost function Climb(root: seq<nat>, rank: seq<nat>, x: nat): nat
    requires x < |root| == |rank|
  {
    if root[x] < |rank| && rank[x] <= rank[root[x]] then rank[root[x]] - rank[x] else 0
  }

  class Forest {
    const parent: array<nat>
    /** the root above each element, and a number that grows on the way up to it */
    ghost var root: seq<nat>
    ghost var rank: seq<nat>

    ghost predicate Valid()
      reads this, parent
    {
      IsForest(parent[..], root, rank)
    }

    constructor (n: nat)
      ensures Valid() && fresh(parent) && |root| == n
      ensures forall x :: 0 <= x < n ==> root[x] == x
    {
      parent := new nat[n](i => i);
      root := seq(n, i => i);
      rank := seq(n, _ => 0);
    }

    /** The root of `x`; every element on the way now points straight at it. */
    method Find(x: nat) returns (r: nat)
      requires Valid() && x < |root|
      modifies parent
      ensures Valid() && r == root[x] < |root|
      ensures parent[x] == root[x]
      decreases Climb(root, rank, x)
    {
      assert Fits(parent[..], root, rank, x);
      if parent[x] != x {
        assert Fits(parent[..], root, rank, parent[x]);
        var up := Find(parent[x]);
        assert Fits(parent[..], root, rank, x);
        Compress(parent[..], root, rank, x);
        ghost var was := parent[..];
        parent[x] := up;
        assert parent[..] == was[x := up];
      }
      r := parent[x];
    }

    /** Merge the classes of `x` and `y`, and no others. */
    method Union(x: nat, y: nat)
      requires Valid() && x < |root| && y < |root|
      modifies parent, this
      ensures Valid() && root == MergedRoots(old(root), x, y)
    {
      var px := Find(x);
      var py := Find(y);
      if px != py {
        Link(parent[..], root, rank, x, y);
        ghost var was := parent[..];
        parent[px] := py;
        assert parent[..] == was[px := py];
        rank := MergedRanks(root, rank, x, y);
        root := MergedRoots(root, x, y);
      } else {
        assert root == MergedRoots(root, x, y);
      }
    }
  }

  // ---------------------------------------------------------------- grouping the files

  /** Elements with the same root are connected. */
  ghost predicate Sound(files: seq<File>, root: seq<nat>) {
    && |root| == |files|
    && forall i, j :: 0 <= i < |files| && 0 <= j < |files| && Active(files, i) && root[i] == root[j] ==>
         Connected(files, i, j)
  }

  /** Overlapping files with numbers below (`ii`, `jj`) in the order of the loops have the same root. */
  ghost predicate Joined(files: seq<File>, active: seq<nat>, root: seq<nat>, ii: nat, jj: nat) {
    forall a, b :: 0 <= a < b < |active| && (a < ii || (a == ii && b < jj)) ==> JoinedPair(files, active, root, a, b)
  }

  ghost predicate JoinedPair(files: seq<File>, active: seq<nat>, root: seq<nat>, a: nat, b: nat)
    requires a < |active| && b < |active|
  {
    && active[a] < |root| && active[b] < |root|
    && (Edge(files, active[a], active[b]) ==> root[active[a]] == root[active[b]])
  }

  /** Joining two overlapping files joins connected files only, and separates none. */
  lemma JoiningIsSound(files: seq<File>, root: seq<nat>, x: nat, y: nat)
    requires Sound(files, root) && Edge(files, x, y)
    ensures Sound(files, MergedRoots(root, x, y))
  {
    var merged := MergedRoots(root, x, y);
    forall i, j | 0 <= i < |files| && 0 <= j < |files| && Active(files, i) && merged[i] == merged[j]
      ensures Connected(files, i, j)
    {
      if root[i] != root[j] {
        if root[i] == root[x] {
          Bridge(files, i, x, y, j);
        } else {
          Bridge(files, i, y, x, j);
        }
      }
    }
  }

  lemma Bridge(files: seq<File>, i: nat, x: nat, y: nat, j: nat)
    requires Connected(files, i, x) && Edge(files, x, y) && Connected(files, y, j)
    ensures Connected(files, i, j)
  {
    ConnectedStep(files, i, x, y);
    ConnectedTransitive(files, i, y, j);
  }

  lemma {:induction false} PathHasOneRoot(files: seq<File>, root: seq<nat>, path: seq<nat>, i: nat, j: nat)
    requires |root| == |files| && IsPath(files, path, i, j)
    requires forall a: nat, b: nat :: Edge(files, a, b) ==> root[a] == root[b]
    ensures Active(files, j) && root[i] == root[j]
    decreases |path|
  {
    if |path| > 1 {
      assert Hop(files, path, 0);
      var rest := path[1..];
      forall h | 0 <= h < |rest| - 1
        ensures Hop(files, rest, h)
      {
        assert Hop(files, path, h + 1);
      }
      PathHasOneRoot(files, root, rest, path[1], j);
    }
  }

  /** The numbers of the active files, in order. */
  ghost predicate ListsActive(files: seq<File>, active: seq<nat>) {
    && (forall a :: 0 <= a < |active| ==> Active(files, active[a]))
    && (forall a, b :: 0 <= a < b < |active| ==> active[a] < active[b])
    && (forall i: nat :: Active(files, i) ==> i in active)
  }

  /** The classes are exactly the connected components of the active files. */
  ghost predicate Grouped(files: seq<File>, root: seq<nat>) {
    && |root| == |files|
    && forall i: nat, j: nat :: i < |files| && j < |files| && Active(files, i) ==>
         (root[i] == root[j] <==> Connected(files, i, j))
  }

  lemma AllJoinedIsGrouped(files: seq<File>, active: seq<nat>, root: seq<nat>)
    requires ListsActive(files, active) && Sound(files, root) && Joined(files, active, root, |active|, 0)
    ensures Grouped(files, root)
  {
    forall a: nat, b: nat | Edge(files, a, b)
      ensures root[a] == root[b]
    {
      var x :| 0 <= x < |active| && active[x] == a;
      var y :| 0 <= y < |active| && active[y] == b;
      if x < y {
        assert JoinedPair(files, active, root, x, y);
      } else if y < x {
        assert JoinedPair(files, active, root, y, x);
      }
    }
    forall i: nat, j: nat | i < |files| && j < |files| && Active(files, i) && Connected(files, i, j)
      ensures root[i] == root[j]
    {
      var path :| IsPath(files, path, i, j);
      PathHasOneRoot(files, root, path, i, j);
    }
  }

  method ActiveFiles(files: seq<File>) returns (active: seq<nat>)
    ensures ListsActive(files, active)
  {
    active := [];
    for i := 0 to |files|
      invariant forall a :: 0 <= a < |active| ==> active[a] < i && Active(files, active[a])
      invariant forall a, b :: 0 <= a < b < |active| ==> active[a] < active[b]
      invariant forall k: nat :: k < i && Active(files, k) ==> k in active
    {
      if !files[i].beingCompacted {
        active := active + [i];
      }
    }
  }

  method UnionOverlapping(files: seq<File>, active: seq<nat>) returns (forest: Forest)
    requires ListsActive(files, active)
    ensures fresh(forest) && fresh(forest.parent) && forest.Valid() && Grouped(files, forest.root)
  {
    forest := new Forest(|files|);
    forall i: nat | Active(files, i)
      ensures Connected(files, i, i)
    {
      ConnectedToItself(files, i);
    }
    for ii := 0 to |active|
      invariant fresh(forest) && fresh(forest.parent) && forest.Valid()
      invariant Sound(files, forest.root) && Joined(files, active, forest.root, ii, 0)
    {
      for jj := ii + 1 to |active|
        invariant fresh(forest) && fresh(forest.parent) && forest.Valid()
        invariant Sound(files, forest.root) && Joined(files, active, forest.root, ii, jj)
      {
        var i, j := active[ii], active[jj];
        ghost var was := forest.root;
        if files[i].Overlaps(files[j]) {
          JoiningIsSound(files, forest.root, i, j);
          forest.Union(i, j);
        }
        StillJoined(files, active, was, forest.root, ii, jj);
      }
    }
    AllJoinedIsGrouped(files, active, forest.root);
  }

  lemma StillJoined(files: seq<File>, active: seq<nat>, was: seq<nat>, root: seq<nat>, ii: nat, jj: nat)
    requires ListsActive(files, active) && ii < jj < |active| && |was| == |files|
    requires Joined(files, active, was, ii, jj)
    requires if Edge(files, active[ii], active[jj]) then root == MergedRoots(was, active[ii], active[jj])
              else root == was
    ensures Joined(files, active, root, ii, jj + 1)
  {
    forall a, b | 0 <= a < b < |active| && (a < ii || (a == ii && b < jj + 1))
      ensures JoinedPair(files, active, root, a, b)
    {
      if a < ii || b < jj {
        assert JoinedPair(files, active, was, a, b);
      }
    }
  }

  // ---------------------------------------------------------------- counting the groups

  /** The group of an active file: everything connected to it. */
  ghost function Group(files: seq<File>, i: nat): set<nat> {
    set j: nat | j < |files| && Connected(files, i, j)
  }

  ghost function Groups(files: seq<File>): set<set<nat>> {
    set i: nat | i < |files| && Active(files, i) :: Group(files, i)
  }

  ghost function LargeGroups(files: seq<File>, trigger: int): set<set<nat>> {
    set g | g in Groups(files) && |g| >= trigger
  }

  /** The listed files with a given root. */
  function Members(active: seq<nat>, root: seq<nat>, r: nat): seq<nat> {
    if active == [] then []
    else
      var rest := Members(active[..|active| - 1], root, r);
      var last := active[|active| - 1];
      if last < |root| && root[last] == r then rest + [last] else rest
  }

  ghost function Class(files: seq<File>, root: seq<nat>, r: nat): set<nat>
    requires |root| == |files|
  {
    set j: nat | j < |files| && Active(files, j) && root[j] == r
  }

  lemma ClassIsGroup(files: seq<File>, root: seq<nat>, i: nat)
    requires Grouped(files, root) && Active(files, i)
    ensures Class(files, root, root[i]) == Group(files, i) && i in Group(files, i)
  {
    ConnectedToItself(files, i);
    forall j: nat | Connected(files, i, j)
      ensures Active(files, j)
    {
      ConnectedSymmetric(files, i, j);
    }
  }

  ghost function Among(active: seq<nat>, root: seq<nat>, r: nat): set<nat> {
    set j | j in active && j < |root| && root[j] == r
  }

  lemma {:induction false} MembersSize(active: seq<nat>, root: seq<nat>, r: nat)
    requires forall a, b :: 0 <= a < b < |active| ==> active[a] < active[b]
    ensures |Members(active, root, r)| == |Among(active, root, r)|
  {
    if active != [] {
      var rest, last := active[..|active| - 1], active[|active| - 1];
      MembersSize(rest, root, r);
      assert last !in rest;
      assert active == rest + [last];
      if last < |root| && root[last] == r {
        assert Among(active, root, r) == Among(rest, root, r) + {last};
      } else {
        assert Among(active, root, r) == Among(rest, root, r);
      }
    }
  }

  lemma GroupSize(files: seq<File>, active: seq<nat>, root: seq<nat>, r: nat)
    requires ListsActive(files, active) && |root| == |files|
    ensures |Members(active, root, r)| == |Class(files, root, r)|
  {
    MembersSize(active, root, r);
    assert Among(active, root, r) == Class(files, root, r);
  }

  ghost function Classes(files: seq<File>, root: seq<nat>, rs: set<nat>): set<set<nat>>
    requires |root| == |files|
  {
    set r | r in rs :: Class(files, root, r)
  }

  /** Different roots have different classes. */
  lemma {:induction false} ClassesSize(files: seq<File>, root: seq<nat>, rs: set<nat>)
    requires |root| == |files|
    requires forall r :: r in rs ==> Class(files, root, r) != {}
    ensures |Classes(files, root, rs)| == |rs|
    decreases |rs|
  {
    if rs != {} {
      var r :| r in rs;
      ClassesSize(files, root, rs - {r});
      var c := Class(files, root, r);
      var j :| j in c;
      assert forall q :: q in rs - {r} ==> j !in Class(files, root, q);
      assert Classes(files, root, rs) == Classes(files, root, rs - {r}) + {c};
    }
  }

  /** The files of each group, by the root of the group. */
  ghost predicate Collected(active: seq<nat>, root: seq<nat>, groups: map<nat, seq<nat>>) {
    && (forall a :: 0 <= a < |active| ==> active[a] < |root| && root[active[a]] in groups)
    && (forall r :: r in groups ==>
          groups[r] == Members(active, root, r) && exists a :: a in active && a < |root| && root[a] == r)
  }

  lemma NothingCollected(root: seq<nat>)
    ensures Collected([], root, map[])
  {
  }

  method CollectGroups(files: seq<File>, active: seq<nat>, forest: Forest) returns (groups: map<nat, seq<nat>>)
    requires forest.Valid() && ListsActive(files, active) && |forest.root| == |files|
    modifies forest.parent
    ensures forest.Valid() && Collected(active, forest.root, groups)
  {
    hide Collected, Members, IsForest;
    groups := map[];
    assert Collected([], forest.root, groups) by { NothingCollected(forest.root); }
    assert active[..0] == [];
    for k := 0 to |active|
      invariant forest.Valid() && Collected(active[..k], forest.root, groups)
    {
      var r := forest.Find(active[k]);
      assert active[..k + 1] == active[..k] + [active[k]];
      OneMoreMember(active[..k], forest.root, groups, active[k]);
      groups := groups[r := (if r in groups then groups[r] else []) + [active[k]]];
    }
    assert active[..|active|] == active;
  }

  lemma OneMoreMember(active: seq<nat>, root: seq<nat>, groups: map<nat, seq<nat>>, i: nat)
    requires Collected(active, root, groups) && i < |root|
    ensures Collected(active + [i], root, groups[root[i] := (if root[i] in groups then groups[root[i]] else []) + [i]])
  {
    var longer, after := active + [i], groups[root[i] := (if root[i] in groups then groups[root[i]] else []) + [i]];
    assert longer[..|longer| - 1] == active;
    if root[i] !in groups {
      NoMembers(active, root, root[i]);
    }
    forall r | r in after
      ensures after[r] == Members(longer, root, r) && exists a :: a in longer && a < |root| && root[a] == r
    {
      if r == root[i] {
        assert i in longer;
      } else {
        var a :| a in active && a < |root| && root[a] == r;
        assert a in longer;
      }
    }
  }

  lemma {:induction false} NoMembers(active: seq<nat>, root: seq<nat>, r: nat)
    requires forall a :: 0 <= a < |active| ==> active[a] < |root| && root[active[a]] != r
    ensures Members(active, root, r) == []
  {
    if active != [] {
      NoMembers(active[..|active| - 1], root, r);
    }
  }

  function LargeKeys(groups: map<nat, seq<nat>>, keys: set<nat>, trigger: int): set<nat>
    requires keys <= groups.Keys
  {
    set r | r in keys && |groups[r]| >= trigger
  }

  method CountLarge(groups: map<nat, seq<nat>>, trigger: int) returns (count: nat)
    ensures count == |LargeKeys(groups, groups.Keys, trigger)|
  {
    count := 0;
    var left := groups.Keys;
    while left != {}
      invariant left <= groups.Keys
      invariant count == |LargeKeys(groups, groups.Keys - left, trigger)|
      decreases |left|
    {
      var r :| r in left;
      ghost var before := LargeKeys(groups, groups.Keys - left, trigger);
      left := left - {r};
      if |groups[r]| >= trigger {
        assert LargeKeys(groups, groups.Keys - left, trigger) == before + {r};
        count := count + 1;
      } else {
        assert LargeKeys(groups, groups.Keys - left, trigger) == before;
      }
    }
    assert groups.Keys - left == groups.Keys;
  }

  /** Every root collects one group. */
  lemma RootHasGroup(files: seq<File>, active: seq<nat>, root: seq<nat>, groups: map<nat, seq<nat>>, r: nat)
    requires Grouped(files, root) && ListsActive(files, active) && Collected(active, root, groups) && r in groups
    ensures Class(files, root, r) != {} && Class(files, root, r) in Groups(files)
    ensures |groups[r]| == |Class(files, root, r)|
  {
    var a :| a in active && a < |root| && root[a] == r;
    ClassIsGroup(files, root, a);
    GroupSize(files, active, root, r);
  }

  /** Every group is collected under one root. */
  lemma GroupHasRoot(files: seq<File>, active: seq<nat>, root: seq<nat>, groups: map<nat, seq<nat>>, g: set<nat>)
    returns (r: nat)
    requires Grouped(files, root) && ListsActive(files, active) && Collected(active, root, groups) && g in Groups(files)
    ensures r in groups && Class(files, root, r) == g
  {
    var i: nat :| i < |files| && Active(files, i) && Group(files, i) == g;
    ClassIsGroup(files, root, i);
    assert i in active;
    r := root[i];
  }

  lemma CountedAreLarge(files: seq<File>, active: seq<nat>, root: seq<nat>, groups: map<nat, seq<nat>>, trigger: int)
    requires Grouped(files, root) && ListsActive(files, active) && Collected(active, root, groups)
    ensures |LargeKeys(groups, groups.Keys, trigger)| == |LargeGroups(files, trigger)|
  {
    hide Connected, Groups, Class, ListsActive, Collected;
    var rs := LargeKeys(groups, groups.Keys, trigger);
    forall r | r in groups
      ensures Class(files, root, r) != {} && Class(files, root, r) in Groups(files)
      ensures |groups[r]| == |Class(files, root, r)|
    {
      RootHasGroup(files, active, root, groups, r);
    }
    ClassesSize(files, root, rs);
    forall g | g in LargeGroups(files, trigger)
      ensures g in Classes(files, root, rs)
    {
      var r := GroupHasRoot(files, active, root, groups, g);
    }
    assert Classes(files, root, rs) == LargeGroups(files, trigger);
  }

  /** What the answer depends on besides the files of level 0. */
  datatype Setting = Setting(disableAutoCompactions: bool, useNewFlush: int, needsCompaction: bool, score: real,
                          trigger: int)

  /** How many groups hold enough files to be compacted. */
  method GetNumGroupsNeedingCompaction(files: seq<File>, setting: Setting) returns (count: nat)
    ensures count == if setting.disableAutoCompactions then 0
                     else if setting.useNewFlush == 0 then if setting.needsCompaction then 1 else 0
                     else if setting.score < 1.0 then 0
                     else |LargeGroups(files, setting.trigger)|
  {
    if setting.disableAutoCompactions {
      return 0;
    }
    if setting.useNewFlush == 0 {
      return if setting.needsCompaction then 1 else 0;
    }
    if setting.score < 1.0 {
      return 0;
    }
    var trigger := setting.trigger;
    if |files| == 0 {
      assert LargeGroups(files, trigger) == {};
      return 0;
    }
    var active := ActiveFiles(files);
    if active == [] {
      assert LargeGroups(files, trigger) == {};
      return 0;
    }
    var forest := UnionOverlapping(files, active);
    var groups := CollectGroups(files, active, forest);
    CountedAreLarge(files, active, forest.root, groups, trigger);
    count := CountLarge(groups, trigger);
  }
}
