/**
 A sorted log of versioned entries, and what a reader at one sequence number sees of it.
 This is the plain meaning that `DBIter` (db/db_iter.cc) has to present.
 */
module SnapshotView {
  import opened Options

  /** User keys: only their order matters. */
  type Key = int
  type Value = string

  datatype Op = Deletion | Put(value: Value) | Merge(operand: Value) | SingleDeletion {
    predicate IsDeletion() { Deletion? || SingleDeletion? }
    /** the type byte that is packed with the sequence number */
    function Code(): nat {
      match this
      case Deletion => 0x0
      case Put(_) => 0x1
      case Merge(_) => 0x2
      case SingleDeletion => 0x7
    }
  }

  const MAX_SEQUENCE_NUMBER: nat := 0xFF_FFFF_FFFF_FFFF

  /** The largest type code, used to seek to the first entry of a sequence number. */
  const TYPE_FOR_SEEK: nat := 0x18
  const TYPE_DELETION: nat := 0x0

  datatype Entry = Entry(key: Key, seqno: nat, op: Op) {
    function Packed(): nat { seqno * 256 + op.Code() }
  }

  /** What a reader sees for one key: nothing, a value, or a merge that fails. */
  datatype Outcome = Hidden | Shown(value: Value) | Failed

  datatype Snapshot = Snapshot(log: seq<Entry>, seqno: nat, merge: (Option<Value>, seq<Value>) -> Option<Value>) {

    /** Ascending keys; for one key, descending sequence numbers, no two the same. */
    ghost predicate Valid() {
      && seqno <= MAX_SEQUENCE_NUMBER
      && (forall i :: 0 <= i < |log| ==> log[i].seqno <= MAX_SEQUENCE_NUMBER)
      && forall i, j :: 0 <= i < j < |log| ==>
           log[i].key < log[j].key || (log[i].key == log[j].key && log[i].seqno > log[j].seqno)
    }

    predicate Visible(i: nat)
      requires i < |log|
    {
      log[i].seqno <= seqno
    }

    function Merged(base: Option<Value>, operands: seq<Value>): Outcome {
      match merge(base, operands)
      case None => Failed
      case Some(v) => Shown(v)
    }

    /** Merge operands of `key` from index `i` on are put before `newer`, down to a base or its absence. */
    function Fold(key: Key, i: nat, newer: seq<Value>): (r: Outcome)
      requires i <= |log|
      ensures !r.Hidden?
      decreases |log| - i
    {
      if i == |log| || log[i].key != key then Merged(None, newer)
      else match log[i].op
        case Put(v) => Merged(Some(v), newer)
        case Merge(v) => Fold(key, i + 1, [v] + newer)
        case _ => Merged(None, newer)
    }

    /** What the entry at `i` stands for if it is the newest one that counts. */
    function OutcomeAt(i: nat): Outcome
      requires i < |log|
    {
      match log[i].op
      case Put(v) => Shown(v)
      case Merge(v) => Fold(log[i].key, i + 1, [v])
      case _ => Hidden
    }

    /** The newest visible entry for `key` at or after `i`; the length of the log if there is none. */
    function Newest(key: Key, i: nat): (n: nat)
      requires i <= |log|
      ensures i <= n <= |log|
      ensures n < |log| ==> log[n].key == key && Visible(n)
      ensures forall j :: i <= j < n ==> log[j].key != key || !Visible(j)
      decreases |log| - i
    {
      if i == |log| || (log[i].key == key && Visible(i)) then i else Newest(key, i + 1)
    }

    /** The snapshot's view of a key. */
    function View(key: Key): Outcome {
      var n := Newest(key, 0);
      if n < |log| then OutcomeAt(n) else Hidden
    }
  }

  // ---------------------------------------------------------------- a plain cursor on the view

  /** A cursor is off the view, on a key, or stuck at a key whose merge fails. */
  datatype Position = Off | On(key: Key, value: Value) | Stuck(key: Key)

  /** Which keys a movement may stop at. */
  datatype Range = Everything | AtLeast(key: Key) | Above(key: Key) | AtMost(key: Key) | Below(key: Key) {
    predicate Contains(k: Key) {
      match this
      case Everything => true
      case AtLeast(b) => b <= k
      case Above(b) => b < k
      case AtMost(b) => k <= b
      case Below(b) => k < b
    }
  }

  function Landing(s: Snapshot, k: Key): Position {
    match s.View(k)
    case Hidden => Off
    case Shown(v) => On(k, v)
    case Failed => Stuck(k)
  }

  /** The first key of the range that the snapshot shows, found by going through the whole log. */
  function First(s: Snapshot, r: Range, i: nat): Position
    requires i <= |s.log|
    decreases |s.log| - i
  {
    if i == |s.log| then Off
    else if r.Contains(s.log[i].key) && !s.View(s.log[i].key).Hidden? then Landing(s, s.log[i].key)
    else First(s, r, i + 1)
  }

  /** The last key of the range that the snapshot shows. */
  function Last(s: Snapshot, r: Range, i: nat): Position
    requires i <= |s.log|
  {
    if i == 0 then Off
    else if r.Contains(s.log[i - 1].key) && !s.View(s.log[i - 1].key).Hidden? then Landing(s, s.log[i - 1].key)
    else Last(s, r, i - 1)
  }

  datatype Move = SeekToFirst | SeekToLast | Seek(target: Key) | SeekForPrev(target: Key) | Next | Prev

  /** The cursor after a move. `Next` and `Prev` may only be asked of a cursor that is on a key. */
  function Moved(s: Snapshot, p: Position, m: Move): Position
    requires m.Next? || m.Prev? ==> p.On?
  {
    match m
    case SeekToFirst => First(s, Everything, 0)
    case SeekToLast => Last(s, Everything, |s.log|)
    case Seek(k) => First(s, AtLeast(k), 0)
    case SeekForPrev(k) => Last(s, AtMost(k), |s.log|)
    case Next => First(s, Above(p.key), 0)
    case Prev => Last(s, Below(p.key), |s.log|)
  }

  /** The positions of a cursor over a whole run. A client asks for `Next` or `Prev` only when it is on a key. */
  function Trace(s: Snapshot, p: Position, moves: seq<Move>): (t: seq<Position>)
    ensures |t| == |moves|
    decreases |moves|
  {
    if moves == [] then []
    else
      var q := Stepped(s, p, moves[0]);
      [q] + Trace(s, q, moves[1..])
  }

  function Stepped(s: Snapshot, p: Position, m: Move): Position {
    if (m.Next? || m.Prev?) && !p.On? then p else Moved(s, p, m)
  }

  lemma {:induction false} TraceExtends(s: Snapshot, p: Position, moves: seq<Move>, m: Move)
    ensures var t := Trace(s, p, moves);
            var last := if t == [] then p else t[|t| - 1];
            Trace(s, p, moves + [m]) == t + [Stepped(s, last, m)]
    decreases |moves|
  {
    if moves == [] {
      assert [m][1..] == [];
    } else {
      var q := Stepped(s, p, moves[0]);
      TraceExtends(s, q, moves[1..], m);
      assert (moves + [m])[1..] == moves[1..] + [m];
    }
  }

  // ---------------------------------------------------------------- facts about the view

  /** Nothing is shown for a key without a visible entry. */
  lemma HiddenWithoutEntries(s: Snapshot, k: Key)
    requires forall i :: 0 <= i < |s.log| && s.log[i].key == k ==> !s.Visible(i)
    ensures s.View(k).Hidden?
  {
  }

  /** The newest visible entry decides what is shown. */
  lemma NewestDecides(s: Snapshot, n: nat)
    requires n < |s.log| && s.Visible(n)
    requires forall i :: 0 <= i < n && s.log[i].key == s.log[n].key ==> !s.Visible(i)
    ensures s.View(s.log[n].key) == s.OutcomeAt(n)
  {
    var m := s.Newest(s.log[n].key, 0);
    assert m == n;
  }

  /** `p` is where a cursor lands that moves up to the first shown key of `r`. */
  ghost predicate IsFirst(s: Snapshot, r: Range, p: Position) {
    match p
    case Off => forall k :: r.Contains(k) ==> s.View(k).Hidden?
    case On(k, _) => p == Landing(s, k) && r.Contains(k) && forall j :: j < k && r.Contains(j) ==> s.View(j).Hidden?
    case Stuck(k) => p == Landing(s, k) && r.Contains(k) && forall j :: j < k && r.Contains(j) ==> s.View(j).Hidden?
  }

  ghost predicate IsLast(s: Snapshot, r: Range, p: Position) {
    match p
    case Off => forall k :: r.Contains(k) ==> s.View(k).Hidden?
    case On(k, _) => p == Landing(s, k) && r.Contains(k) && forall j :: k < j && r.Contains(j) ==> s.View(j).Hidden?
    case Stuck(k) => p == Landing(s, k) && r.Contains(k) && forall j :: k < j && r.Contains(j) ==> s.View(j).Hidden?
  }

  /** The operands of `k` merge entries from index `n` on, oldest first. */
  function Operands(log: seq<Entry>, n: nat, k: nat): seq<Value>
    requires n + k <= |log| && forall i :: n <= i < n + k ==> log[i].op.Merge?
  {
    seq(k, i requires 0 <= i < k => log[n + k - 1 - i].op.operand)
  }

  /** What a merge of the operands gives is shown, and what fails to merge is not hidden. */
  ghost predicate ShowsMerge(s: Snapshot, view: Outcome, base: Option<Value>, operands: seq<Value>) {
    match s.merge(base, operands)
    case Some(v) => view == Shown(v)
    case None => view == Failed
  }

  lemma {:induction false} FoldIs(s: Snapshot, key: Key, i: nat, k: nat, newer: seq<Value>)
    requires i + k <= |s.log| && forall j :: i <= j < i + k ==> s.log[j].key == key && s.log[j].op.Merge?
    requires i + k < |s.log| && s.log[i + k].key == key ==> !s.log[i + k].op.Merge?
    ensures ShowsMerge(s, s.Fold(key, i, newer),
                       if i + k < |s.log| && s.log[i + k].key == key && s.log[i + k].op.Put?
                       then Some(s.log[i + k].op.value) else None,
                       Operands(s.log, i, k) + newer)
    decreases k
  {
    if k == 0 {
      assert Operands(s.log, i, k) + newer == newer;
    } else {
      var v := s.log[i].op.operand;
      FoldIs(s, key, i + 1, k - 1, [v] + newer);
      assert Operands(s.log, i + 1, k - 1) + ([v] + newer) == Operands(s.log, i, k) + newer;
    }
  }

  /**
   The view of a key in plain words. The entry at `n` is the newest that is not newer than the
   snapshot, and `k` merges of the key begin there. Without a merge the view is the value put or
   nothing; otherwise it is what merging the operands gives, oldest first, onto the value put
   below them, or onto no value if a deletion, another key or the end of the log is below them.
   */
  lemma ViewIs(s: Snapshot, n: nat, k: nat)
    requires n < |s.log| && n + k <= |s.log| && s.log[n].seqno <= s.seqno
    requires forall i :: 0 <= i < n && s.log[i].key == s.log[n].key ==> s.log[i].seqno > s.seqno
    requires forall i :: n <= i < n + k ==> s.log[i].key == s.log[n].key && s.log[i].op.Merge?
    requires n + k < |s.log| && s.log[n + k].key == s.log[n].key ==> !s.log[n + k].op.Merge?
    ensures var view := s.View(s.log[n].key);
            if k == 0 then
              match s.log[n].op
              case Put(v) => view == Shown(v)
              case Deletion => view == Hidden
              case SingleDeletion => view == Hidden
              case Merge(_) => false
            else
              ShowsMerge(s, view,
                         if n + k < |s.log| && s.log[n + k].key == s.log[n].key && s.log[n + k].op.Put?
                         then Some(s.log[n + k].op.value) else None,
                         Operands(s.log, n, k))
  {
    NewestDecides(s, n);
    if k > 0 {
      var v := s.log[n].op.operand;
      FoldIs(s, s.log[n].key, n + 1, k - 1, [v]);
      assert Operands(s.log, n + 1, k - 1) + [v] == Operands(s.log, n, k);
    }
  }

  /** Nothing is shown for a key whose entries are all newer than the snapshot. */
  lemma NewerIsHidden(s: Snapshot, key: Key)
    requires forall i :: 0 <= i < |s.log| && s.log[i].key == key ==> s.log[i].seqno > s.seqno
    ensures s.View(key) == Hidden
  {
    HiddenWithoutEntries(s, key);
  }

  /** A position with nothing shown before it in the range is the one the cursor moves to. */
  lemma {:induction false} FirstIs(s: Snapshot, r: Range, p: Position, i: nat)
    requires s.Valid() && IsFirst(s, r, p) && i <= |s.log|
    requires p.Off? || exists j :: i <= j < |s.log| && s.log[j].key == p.key
    ensures First(s, r, i) == p
    decreases |s.log| - i
  {
    if i < |s.log| {
      var k := s.log[i].key;
      if r.Contains(k) && !s.View(k).Hidden? {
        assert !p.Off? ==> k <= p.key;
      } else {
        FirstIs(s, r, p, i + 1);
      }
    }
  }

  lemma {:induction false} LastIs(s: Snapshot, r: Range, p: Position, i: nat)
    requires s.Valid() && IsLast(s, r, p) && i <= |s.log|
    requires p.Off? || exists j :: 0 <= j < i && s.log[j].key == p.key
    ensures Last(s, r, i) == p
  {
    if i > 0 {
      var k := s.log[i - 1].key;
      if r.Contains(k) && !s.View(k).Hidden? {
        assert !p.Off? ==> p.key <= k;
      } else {
        LastIs(s, r, p, i - 1);
      }
    }
  }

  /** A key that is shown has an entry. */
  lemma ShownHasEntry(s: Snapshot, k: Key)
    requires !s.View(k).Hidden?
    ensures exists j :: 0 <= j < |s.log| && s.log[j].key == k
  {
    var n := s.Newest(k, 0);
  }

  lemma Lands(s: Snapshot, r: Range, p: Position)
    requires s.Valid()
    ensures IsFirst(s, r, p) ==> First(s, r, 0) == p
    ensures IsLast(s, r, p) ==> Last(s, r, |s.log|) == p
  {
    if IsFirst(s, r, p) {
      if !p.Off? { ShownHasEntry(s, p.key); }
      FirstIs(s, r, p, 0);
    }
    if IsLast(s, r, p) {
      if !p.Off? { ShownHasEntry(s, p.key); }
      LastIs(s, r, p, |s.log|);
    }
  }

  // ---------------------------------------------------------------- the rows a cursor goes through

  /** The keys of the view from index `i` on: each key once, unless nothing is shown for it. */
  function Rows(s: Snapshot, i: nat): seq<Key>
    requires i <= |s.log|
    decreases |s.log| - i
  {
    if i == |s.log| then []
    else if s.View(s.log[i].key).Hidden? || (i > 0 && s.log[i - 1].key == s.log[i].key) then Rows(s, i + 1)
    else [s.log[i].key] + Rows(s, i + 1)
  }

  ghost predicate HasEntryFrom(s: Snapshot, k: Key, i: nat) {
    exists j :: i <= j < |s.log| && s.log[j].key == k
  }

  lemma {:induction false} RowsFrom(s: Snapshot, i: nat, k: Key)
    requires s.Valid() && i <= |s.log|
    ensures k in Rows(s, i) <==> !s.View(k).Hidden? && HasEntryFrom(s, k, i) && (i > 0 ==> s.log[i - 1].key < k)
    decreases |s.log| - i
  {
    hide Snapshot.View;
    if i < |s.log| {
      RowsFrom(s, i + 1, k);
      assert HasEntryFrom(s, k, i) <==> k == s.log[i].key || HasEntryFrom(s, k, i + 1);
    }
  }

  lemma {:induction false} RowsAscend(s: Snapshot, i: nat)
    requires s.Valid() && i <= |s.log|
    ensures forall a, b :: 0 <= a < b < |Rows(s, i)| ==> Rows(s, i)[a] < Rows(s, i)[b]
    decreases |s.log| - i
  {
    hide Snapshot.View, Snapshot.Valid, HasEntryFrom;
    if i < |s.log| {
      RowsAscend(s, i + 1);
      var rest := Rows(s, i + 1);
      forall b | 0 <= b < |rest|
        ensures s.log[i].key < rest[b]
      {
        RowsFrom(s, i + 1, rest[b]);
      }
    }
  }

  /** The rows are all the keys that are shown or fail, in ascending order. */
  lemma RowsAreTheView(s: Snapshot)
    requires s.Valid()
    ensures forall k :: k in Rows(s, 0) <==> !s.View(k).Hidden?
    ensures forall a, b :: 0 <= a < b < |Rows(s, 0)| ==> Rows(s, 0)[a] < Rows(s, 0)[b]
  {
    hide Snapshot.View, Snapshot.Valid, Rows;
    RowsAscend(s, 0);
    forall k
      ensures k in Rows(s, 0) <==> !s.View(k).Hidden?
    {
      RowsFrom(s, 0, k);
      if !s.View(k).Hidden? {
        ShownHasEntry(s, k);
      }
    }
  }

  /** The landing on row `a`, and off the view past either end. */
  function RowAt(s: Snapshot, a: int): Position {
    if 0 <= a < |Rows(s, 0)| then Landing(s, Rows(s, 0)[a]) else Off
  }

  /** Moving up stops at the first row of the range. */
  lemma FirstRow(s: Snapshot, r: Range, a: nat)
    requires s.Valid() && a <= |Rows(s, 0)|
    requires forall b :: 0 <= b < a ==> !r.Contains(Rows(s, 0)[b])
    requires a < |Rows(s, 0)| ==> r.Contains(Rows(s, 0)[a])
    ensures First(s, r, 0) == RowAt(s, a)
  {
    hide Snapshot.View, Snapshot.Valid, Rows, First, Range.Contains;
    RowsAreTheView(s);
    var rows := Rows(s, 0);
    forall k | r.Contains(k) && (a == |rows| || k < rows[a])
      ensures s.View(k).Hidden?
    {
    }
    assert a < |rows| ==> rows[a] in rows;
    Lands(s, r, RowAt(s, a));
  }

  /** Moving down stops at the last row of the range. */
  lemma LastRow(s: Snapshot, r: Range, a: int)
    requires s.Valid() && -1 <= a < |Rows(s, 0)|
    requires forall b :: a < b < |Rows(s, 0)| ==> !r.Contains(Rows(s, 0)[b])
    requires a >= 0 ==> r.Contains(Rows(s, 0)[a])
    ensures Last(s, r, |s.log|) == RowAt(s, a)
  {
    hide Snapshot.View, Snapshot.Valid, Rows, Last, Range.Contains;
    RowsAreTheView(s);
    var rows := Rows(s, 0);
    forall k | r.Contains(k) && (a == -1 || rows[a] < k)
      ensures s.View(k).Hidden?
    {
    }
    assert a >= 0 ==> rows[a] in rows;
    Lands(s, r, RowAt(s, a));
  }

  /** `Next` and `Prev` go from row to row, so each undoes the other; the seeks go to the ends. */
  lemma MovesAlongRows(s: Snapshot, a: nat)
    requires s.Valid() && a < |Rows(s, 0)| && RowAt(s, a).On?
    ensures Moved(s, RowAt(s, a), Next) == RowAt(s, a + 1)
    ensures Moved(s, RowAt(s, a), Prev) == RowAt(s, a - 1)
    ensures Moved(s, RowAt(s, a), SeekToFirst) == RowAt(s, 0)
    ensures Moved(s, RowAt(s, a), SeekToLast) == RowAt(s, |Rows(s, 0)| - 1)
  {
    hide Snapshot.Valid, Rows, First, Last;
    RowsAreTheView(s);
    FirstRow(s, Above(Rows(s, 0)[a]), a + 1);
    LastRow(s, Below(Rows(s, 0)[a]), a - 1);
    FirstRow(s, Everything, 0);
    LastRow(s, Everything, |Rows(s, 0)| - 1);
  }

  /** `Seek` and `SeekForPrev` split the rows at their target. */
  lemma SeeksSplitRows(s: Snapshot, p: Position, target: Key, a: nat)
    requires s.Valid() && a <= |Rows(s, 0)|
    requires forall b :: 0 <= b < a ==> Rows(s, 0)[b] < target
    requires forall b :: a <= b < |Rows(s, 0)| ==> target <= Rows(s, 0)[b]
    ensures Moved(s, p, Seek(target)) == RowAt(s, a)
    ensures Moved(s, p, SeekForPrev(target)) ==
            if a < |Rows(s, 0)| && Rows(s, 0)[a] == target then RowAt(s, a) else RowAt(s, a - 1)
  {
    hide Snapshot.Valid, Rows, First, Last, Landing;
    RowsAreTheView(s);
    FirstRow(s, AtLeast(target), a);
    LastRow(s, AtMost(target), if a < |Rows(s, 0)| && Rows(s, 0)[a] == target then a else a - 1);
  }
}
