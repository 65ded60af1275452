/**
 The user-facing iterator of the database (db/db_iter.cc).  It walks an inner iterator over all
 versions of all keys, in both directions, skipping what is invisible or overwritten, merging
 operands, and re-seeking after too many skips.  Every run of it is a run of the plain cursor
 of `SnapshotView`, whatever the skip limit is.
 */
module DbIter {
  import opened Options
  import opened SnapshotView

  // ---------------------------------------------------------------- the inner iterator

  /** The first entry at or after the internal key (`key`, `seqno`, `kind`). */
  function SeekIndex(log: seq<Entry>, key: Key, seqno: nat, kind: nat, i: nat): (n: nat)
    requires i <= |log|
    ensures i <= n <= |log|
    ensures n < |log| ==> log[n].key > key || (log[n].key == key && log[n].Packed() <= seqno * 256 + kind)
    ensures forall j :: i <= j < n ==> log[j].key < key || (log[j].key == key && log[j].Packed() > seqno * 256 + kind)
    decreases |log| - i
  {
    if i == |log| || log[i].key > key || (log[i].key == key && log[i].Packed() <= seqno * 256 + kind) then i
    else SeekIndex(log, key, seqno, kind, i + 1)
  }

  /** The last entry at or before the internal key (`key`, `seqno`, `kind`); -1 if there is none. */
  function SeekForPrevIndex(log: seq<Entry>, key: Key, seqno: nat, kind: nat, i: nat): (n: int)
    requires i <= |log|
    ensures -1 <= n < i
    ensures n >= 0 ==> log[n].key < key || (log[n].key == key && log[n].Packed() >= seqno * 256 + kind)
    ensures forall j :: n < j < i ==> log[j].key > key || (log[j].key == key && log[j].Packed() < seqno * 256 + kind)
  {
    if i == 0 || log[i - 1].key < key || (log[i - 1].key == key && log[i - 1].Packed() >= seqno * 256 + kind) then i - 1
    else SeekForPrevIndex(log, key, seqno, kind, i - 1)
  }

  // ---------------------------------------------------------------- moving forward

  predicate Upward(r: Range) { !r.AtMost? && !r.Below? }

  predicate Downward(r: Range) { r.Everything? || r.AtMost? || r.Below? }

  ghost predicate HiddenBelow(s: Snapshot, r: Range, p: nat)
    requires p <= |s.log|
  {
    forall k :: r.Contains(k) && (p == |s.log| || k < s.log[p].key) ==> s.View(k).Hidden?
  }

  ghost predicate NoneVisibleBefore(s: Snapshot, p: nat)
    requires p < |s.log|
  {
    forall i :: 0 <= i < p && s.log[i].key == s.log[p].key ==> !s.Visible(i)
  }

  /** `saved` is settled: it is out of the range or hidden, and whatever is above it is in the range. */
  ghost predicate Settled(s: Snapshot, r: Range, saved: Key) {
    && (r.Contains(saved) ==> s.View(saved).Hidden?)
    && (forall k :: k > saved ==> r.Contains(k))
  }

  /** The search for the first shown key of `r` has come to `p` and has missed nothing. */
  ghost predicate Ahead(s: Snapshot, r: Range, p: nat, skipping: bool, saved: Key)
    requires p <= |s.log|
  {
    && HiddenBelow(s, r, p)
    && (skipping ==> Settled(s, r, saved))
    && (p < |s.log| ==>
          && (skipping ==> saved <= s.log[p].key)
          && (!skipping ==> r.Contains(s.log[p].key))
          && (!skipping || saved < s.log[p].key ==> NoneVisibleBefore(s, p)))
  }

  /** The entry at `p` has been dealt with: its key is settled, or it is one more invisible version. */
  ghost predicate Handled(s: Snapshot, r: Range, p: nat, skipping: bool, saved: Key)
    requires p < |s.log|
  {
    && HiddenBelow(s, r, p)
    && saved == s.log[p].key
    && (if skipping then Settled(s, r, saved)
        else r.Contains(saved) && NoneVisibleBefore(s, p) && !s.Visible(p))
  }

  /** Stepping, or seeking, over entries of the key just dealt with misses nothing. */
  lemma Advance(s: Snapshot, r: Range, p: nat, q: nat, skipping: bool, saved: Key)
    requires s.Valid() && Upward(r) && p < |s.log| && p <= q <= |s.log|
    requires Handled(s, r, p, skipping, saved)
    requires forall i :: p <= i < q ==> s.log[i].key == saved && (skipping || !s.Visible(i))
    requires !skipping ==> p < q
    ensures Ahead(s, r, q, skipping, saved)
  {
    forall k | r.Contains(k) && (q == |s.log| || k < s.log[q].key)
      ensures s.View(k).Hidden?
    {
      if k >= saved && (k > saved || !skipping) {
        HiddenWithoutEntries(s, k);
      }
    }
  }

  /** A visible entry with no visible newer version is where the search ends, unless it is a deletion. */
  lemma Arrives(s: Snapshot, r: Range, p: nat, skipping: bool, saved: Key)
    requires s.Valid() && p < |s.log| && Ahead(s, r, p, skipping, saved)
    requires s.Visible(p) && (!skipping || saved < s.log[p].key)
    ensures s.View(s.log[p].key) == s.OutcomeAt(p)
    ensures !s.OutcomeAt(p).Hidden? ==> First(s, r, 0) == Landing(s, s.log[p].key)
    ensures r.Contains(s.log[p].key)
  {
    NewestDecides(s, p);
    if !s.OutcomeAt(p).Hidden? {
      var l := Landing(s, s.log[p].key);
      assert IsFirst(s, r, l);
      Lands(s, r, l);
    }
  }

  /** Where the search goes from an entry it has dealt with: the next entry, or far beyond it by a seek. */
  function Onward(s: Snapshot, p: nat, reseek: bool, skipping: bool, saved: Key): nat
    requires p < |s.log|
  {
    if !reseek then p + 1
    else if skipping then SeekIndex(s.log, saved, 0, TYPE_DELETION, 0)
    else SeekIndex(s.log, saved, s.seqno, TYPE_FOR_SEEK, 0)
  }

  lemma OnwardIsAhead(s: Snapshot, r: Range, p: nat, reseek: bool, skipping: bool, saved: Key)
    requires s.Valid() && Upward(r) && p < |s.log|
    requires Handled(s, r, p, skipping, saved)
    ensures var q := Onward(s, p, reseek, skipping, saved);
            && p <= q <= |s.log| && (!reseek ==> p < q)
            && Ahead(s, r, q, skipping, saved)
  {
    var q := Onward(s, p, reseek, skipping, saved);
    hide HiddenBelow, NoneVisibleBefore, Settled, Ahead;
    Advance(s, r, p, q, skipping, saved);
  }

  lemma HandledKey(s: Snapshot, r: Range, p: nat, skipping: bool, saved: Key)
    requires p < |s.log| && Handled(s, r, p, skipping, saved)
    ensures saved == s.log[p].key
  {
  }

  lemma RunsOut(s: Snapshot, r: Range, skipping: bool, saved: Key)
    requires s.Valid() && Ahead(s, r, |s.log|, skipping, saved)
    ensures First(s, r, 0) == Off
  {
    Lands(s, r, Off);
  }

  /** With nothing but `saved` and smaller keys behind, the search for a larger key can start. */
  lemma StartsAbove(s: Snapshot, p: nat, saved: Key)
    requires s.Valid() && p <= |s.log|
    requires forall i :: 0 <= i < p ==> s.log[i].key <= saved
    requires forall i :: p <= i < |s.log| ==> saved <= s.log[i].key
    ensures Ahead(s, Above(saved), p, true, saved)
  {
    forall k | k > saved && (p == |s.log| || k < s.log[p].key)
      ensures s.View(k).Hidden?
    {
      HiddenWithoutEntries(s, k);
    }
  }

  lemma StartsAt(s: Snapshot, target: Key)
    requires s.Valid()
    ensures Ahead(s, AtLeast(target), SeekIndex(s.log, target, s.seqno, TYPE_FOR_SEEK, 0), false, target)
  {
    var p := SeekIndex(s.log, target, s.seqno, TYPE_FOR_SEEK, 0);
    assert forall i :: 0 <= i < p && s.log[i].key == target ==> !s.Visible(i);
    forall k | k >= target && (p == |s.log| || k < s.log[p].key)
      ensures s.View(k).Hidden?
    {
      HiddenWithoutEntries(s, k);
    }
  }

  lemma StartsAtFirst(s: Snapshot, saved: Key)
    requires s.Valid()
    ensures Ahead(s, Everything, 0, false, saved)
  {
    forall k | |s.log| == 0 || k < s.log[0].key
      ensures s.View(k).Hidden?
    {
      HiddenWithoutEntries(s, k);
    }
  }

  // ---------------------------------------------------------------- moving backward

  ghost predicate LastOfKey(s: Snapshot, p: nat)
    requires p < |s.log|
  {
    forall i :: p < i < |s.log| ==> s.log[p].key < s.log[i].key
  }

  ghost predicate HiddenAbove(s: Snapshot, r: Range, p: int)
    requires -1 <= p < |s.log|
  {
    forall k :: r.Contains(k) && (p == -1 || s.log[p].key < k) ==> s.View(k).Hidden?
  }

  /** The search for the last shown key of `r` has come down to `p` and has missed nothing. */
  ghost predicate Behind(s: Snapshot, r: Range, p: int)
    requires -1 <= p < |s.log|
  {
    && HiddenAbove(s, r, p)
    && (p >= 0 ==> r.Contains(s.log[p].key) && LastOfKey(s, p))
  }

  /** Coming down over a hidden key misses nothing. */
  lemma Descend(s: Snapshot, r: Range, p: nat, q: int)
    requires s.Valid() && Downward(r) && p < |s.log| && -1 <= q < p
    requires Behind(s, r, p) && s.View(s.log[p].key).Hidden?
    requires forall i :: 0 <= i <= q ==> s.log[i].key < s.log[p].key
    requires forall i :: q < i < |s.log| ==> s.log[p].key <= s.log[i].key
    ensures Behind(s, r, q)
  {
    forall k | r.Contains(k) && (q == -1 || s.log[q].key < k)
      ensures s.View(k).Hidden?
    {
      if k < s.log[p].key {
        HiddenWithoutEntries(s, k);
      }
    }
  }

  lemma StopsAt(s: Snapshot, r: Range, p: nat)
    requires s.Valid() && p < |s.log| && Behind(s, r, p) && !s.View(s.log[p].key).Hidden?
    ensures Last(s, r, |s.log|) == Landing(s, s.log[p].key)
  {
    var l := Landing(s, s.log[p].key);
    assert IsLast(s, r, l);
    Lands(s, r, l);
  }

  lemma ComesToEnd(s: Snapshot, r: Range)
    requires s.Valid() && Behind(s, r, -1)
    ensures Last(s, r, |s.log|) == Off
  {
    Lands(s, r, Off);
  }

  /** Standing on the last entry whose key is in the range, the search can start. */
  lemma StartsBehind(s: Snapshot, r: Range, p: int)
    requires s.Valid() && Downward(r) && -1 <= p < |s.log|
    requires forall i :: 0 <= i <= p ==> r.Contains(s.log[i].key)
    requires forall i :: p < i < |s.log| ==> !r.Contains(s.log[i].key)
    ensures Behind(s, r, p)
  {
    forall k | r.Contains(k) && (p == -1 || s.log[p].key < k)
      ensures s.View(k).Hidden?
    {
      HiddenWithoutEntries(s, k);
    }
  }

  /** A seek to the snapshot's sequence number finds the newest visible version, if there is one. */
  lemma SeekFindsNewest(s: Snapshot, p: nat)
    requires s.Valid() && p < |s.log| && s.Visible(p)
    ensures var q := SeekIndex(s.log, s.log[p].key, s.seqno, TYPE_FOR_SEEK, 0);
            q <= p && s.log[q].key == s.log[p].key && s.Visible(q) && s.View(s.log[p].key) == s.OutcomeAt(q)
  {
    var q := SeekIndex(s.log, s.log[p].key, s.seqno, TYPE_FOR_SEEK, 0);
    assert s.log[p].Packed() <= s.seqno * 256 + TYPE_FOR_SEEK;
    assert q <= p;
    NewestDecides(s, q);
  }

  /** No key has an entry after its entry with sequence number zero. */
  lemma ZeroIsLast(s: Snapshot, p: nat)
    requires s.Valid() && p < |s.log|
    ensures s.log[p].seqno == 0 ==> forall i :: p < i < |s.log| ==> s.log[p].key < s.log[i].key
  {
  }

  class DBIter {
    const s: Snapshot
    /** how many entries to skip before seeking instead */
    const maxSkip: nat
    /** the inner iterator: valid exactly when it is an index of the log */
    var pos: int
    var savedKey: Key
    var value: Value
    var valid: bool
    var ok: bool
    var forward: bool
    var currentEntryIsMerged: bool
    var isKeySeqnumZero: bool

    predicate InnerValid()
      reads this
    {
      0 <= pos < |s.log|
    }

    /** What a client sees. */
    function At(): Position
      reads this
    {
      if valid then On(savedKey, value) else if ok then Off else Stuck(savedKey)
    }

    /** Where the inner iterator stands while the user is on `savedKey` going forward. */
    ghost predicate ForwardAt()
      reads this
    {
      && 0 <= pos <= |s.log|
      && (forall i :: 0 <= i < pos ==> s.log[i].key <= savedKey)
      && (forall i :: pos <= i < |s.log| ==> savedKey <= s.log[i].key)
      && (!currentEntryIsMerged ==> pos < |s.log| && s.log[pos].key == savedKey)
      && (isKeySeqnumZero ==>
            forall i :: (if currentEntryIsMerged then pos else pos + 1) <= i < |s.log| ==> savedKey < s.log[i].key)
    }

    /** Going backward, it stands on the last entry of a smaller key. */
    ghost predicate BackwardAt()
      reads this
    {
      && -1 <= pos < |s.log|
      && (forall i :: 0 <= i <= pos ==> s.log[i].key < savedKey)
      && (forall i :: pos < i < |s.log| ==> savedKey <= s.log[i].key)
    }

    ghost predicate Inv()
      reads this
    {
      && s.Valid()
      && (valid ==> ok && At() == Landing(s, savedKey) && (if forward then ForwardAt() else BackwardAt()))
    }

    constructor (s: Snapshot, maxSkip: nat)
      requires s.Valid()
      ensures Inv() && At() == Off
      ensures this.s == s && this.maxSkip == maxSkip
    {
      this.s, this.maxSkip := s, maxSkip;
      pos, savedKey, value := -1, 0, "";
      valid, ok, forward, currentEntryIsMerged, isKeySeqnumZero := false, true, true, false, false;
    }

    // -------------------------------------------------------------- merging

    /** `base` and `operands` (oldest first) are what entries of `k` from `i` on amount to. */
    ghost predicate Amounts(k: Key, i: nat, base: Option<Value>, operands: seq<Value>)
    {
      i <= |s.log| && forall newer :: s.Fold(k, i, newer) == s.Merged(base, operands + newer)
    }

    lemma AmountsToNothing(k: Key, p: nat)
      requires s.Valid() && p < |s.log| && s.log[p].key == k && LastOfKey(s, p)
      ensures Amounts(k, p + 1, None, [])
    {
      forall newer: seq<Value>
        ensures s.Fold(k, p + 1, newer) == s.Merged(None, [] + newer)
      {
        assert [] + newer == newer;
      }
    }

    /** One more version of the key, newer than those collected. */
    lemma AmountsOneMore(k: Key, p: nat, base: Option<Value>, operands: seq<Value>)
      requires p < |s.log| && s.log[p].key == k && Amounts(k, p + 1, base, operands)
      ensures match s.log[p].op
              case Put(v) => Amounts(k, p, Some(v), [])
              case Merge(v) => Amounts(k, p, base, operands + [v])
              case _ => Amounts(k, p, None, [])
    {
      forall newer: seq<Value>
        ensures s.log[p].op.IsDeletion() ==> s.Fold(k, p, newer) == s.Merged(None, [] + newer)
        ensures s.log[p].op.Put? ==> s.Fold(k, p, newer) == s.Merged(Some(s.log[p].op.value), [] + newer)
        ensures s.log[p].op.Merge? ==> s.Fold(k, p, newer) == s.Merged(base, operands + [s.log[p].op.operand] + newer)
      {
        assert [] + newer == newer;
        if s.log[p].op.Merge? {
          var v := s.log[p].op.operand;
          assert operands + ([v] + newer) == operands + [v] + newer;
          assert s.Fold(k, p, newer) == s.Fold(k, p + 1, [v] + newer);
        }
      }
    }

    /** What the versions in (p, oldest] of a key amount to, when all of them and no newer ones are visible. */
    lemma WhatWasCollected(k: Key, p: int, oldest: nat, base: Option<Value>, operands: seq<Value>)
      requires s.Valid() && -1 <= p <= oldest < |s.log| && s.log[oldest].key == k && LastOfKey(s, oldest)
      requires forall i :: p < i <= oldest ==> s.log[i].key == k && s.Visible(i)
      requires p >= 0 ==> s.log[p].key != k || !s.Visible(p)
      requires Amounts(k, p + 1, base, operands)
      ensures p == oldest ==> s.View(k).Hidden?
      ensures p < oldest ==>
                match s.log[p + 1].op
                case Put(v) => s.View(k) == Shown(v)
                case Merge(_) => s.View(k) == s.Merged(base, operands)
                case _ => s.View(k).Hidden?
    {
      if p < oldest {
        NewestDecides(s, p + 1);
        if s.log[p + 1].op.Merge? {
          assert [s.log[p + 1].op.operand] + [] == [s.log[p + 1].op.operand];
          assert s.Fold(k, p + 1, []) == s.OutcomeAt(p + 1);
          assert operands + [] == operands;
        }
      } else {
        HiddenWithoutEntries(s, k);
      }
    }

    method SetMerged(base: Option<Value>, operands: seq<Value>)
      modifies `value, `valid, `ok
      ensures match s.merge(base, operands)
              case Some(v) => valid && value == v && ok == old(ok)
              case None => !valid && !ok
    {
      match s.merge(base, operands)
      case None => valid, ok := false, false;
      case Some(v) => value, valid := v, true;
    }

    method MergeValuesNewToOld()
      requires InnerValid() && s.Valid() && ok && s.log[pos].key == savedKey && s.log[pos].op.Merge?
      requires forall i :: 0 <= i < pos ==> s.log[i].key <= savedKey
      modifies `pos, `value, `valid, `ok
      ensures old(pos) < pos <= |s.log|
      ensures forall i :: 0 <= i < pos ==> s.log[i].key <= savedKey
      ensures match s.OutcomeAt(old(pos))
              case Shown(v) => valid && ok && value == v
              case _ => !valid && !ok
    {
      var operands := [s.log[pos].op.operand];
      pos := pos + 1;
      while InnerValid()
        invariant old(pos) < pos <= |s.log|
        invariant ok == old(ok)
        invariant forall i :: 0 <= i < pos ==> s.log[i].key <= savedKey
        invariant s.OutcomeAt(old(pos)) == s.Fold(savedKey, pos, operands)
        decreases |s.log| - pos
      {
        if s.log[pos].key != savedKey { break; }
        if s.log[pos].op.IsDeletion() {
          pos := pos + 1;
          break;
        }
        if s.log[pos].op.Put? {
          SetMerged(Some(s.log[pos].op.value), operands);
          pos := pos + 1;
          return;
        }
        operands := [s.log[pos].op.operand] + operands;
        pos := pos + 1;
      }
      SetMerged(None, operands);
    }

    // -------------------------------------------------------------- forward

    /** One entry of the search: either the search ends here, or the entry is dealt with. */
    method FindNextStep(skippingSavedKey: bool, ghost r: Range) returns (done: bool, skipping: bool, skipped: bool)
      requires InnerValid() && s.Valid() && Upward(r) && ok && forward && !currentEntryIsMerged
      requires Ahead(s, r, pos, skippingSavedKey, savedKey)
      requires isKeySeqnumZero && skippingSavedKey ==> savedKey < s.log[pos].key
      modifies this
      ensures forward
      ensures done ==> Inv() && At() == First(s, r, 0)
      ensures !done ==> ok && !currentEntryIsMerged && pos == old(pos) && isKeySeqnumZero == (s.log[pos].seqno == 0)
      ensures !done ==> Handled(s, r, pos, skipping, savedKey)
    {
      hide First, BackwardAt;
      var e := s.log[pos];
      var isPrevKeySeqnumZero := isKeySeqnumZero;
      isKeySeqnumZero := e.seqno == 0;
      done, skipping, skipped := false, skippingSavedKey, false;
      if e.seqno <= s.seqno {
        if !isPrevKeySeqnumZero && skipping && e.key <= savedKey {
          skipped := true;
        } else {
          Arrives(s, r, pos, skipping, savedKey);
          savedKey := e.key;
          match e.op
          case Put(v) =>
            value, valid, done := v, true, true;
          case Merge(_) =>
            currentEntryIsMerged, valid, done := true, true, true;
            MergeValuesNewToOld();
          case _ =>
            skipping := true;
        }
      } else if e.key == savedKey || (skipping && e.key < savedKey) {
        skipped := true;
      } else {
        savedKey := e.key;
        skipping := false;
      }
    }

    method FindNextUserEntry(skippingSavedKey: bool, ghost r: Range)
      requires InnerValid() && s.Valid() && Upward(r) && ok && forward
      requires Ahead(s, r, pos, skippingSavedKey, savedKey)
      requires isKeySeqnumZero && skippingSavedKey ==> savedKey < s.log[pos].key
      modifies this
      ensures Inv() && At() == First(s, r, 0)
    {
      hide Ahead, Handled, Onward, First, Landing, ForwardAt, BackwardAt, Snapshot.Valid;
      currentEntryIsMerged := false;
      var skipping := skippingSavedKey;
      var numSkipped, reseekDone := 0, false;
      while InnerValid()
        invariant 0 <= pos <= |s.log| && ok && forward && !currentEntryIsMerged
        invariant Ahead(s, r, pos, skipping, savedKey)
        invariant isKeySeqnumZero && skipping && pos < |s.log| ==> savedKey < s.log[pos].key
        decreases |s.log| - pos, !reseekDone
      {
        var done, skipped;
        done, skipping, skipped := FindNextStep(skipping, r);
        if done { return; }
        if skipped {
          numSkipped := numSkipped + 1;
        } else {
          numSkipped, reseekDone := 0, false;
        }
        var reseek := numSkipped > maxSkip && !reseekDone;
        if reseek {
          isKeySeqnumZero, numSkipped, reseekDone := false, 0, true;
        }
        assert savedKey == s.log[pos].key by { HandledKey(s, r, pos, skipping, savedKey); }
        OnwardIsAhead(s, r, pos, reseek, skipping, savedKey);
        ZeroIsLast(s, pos);
        pos := Onward(s, pos, reseek, skipping, savedKey);
      }
      valid := false;
      RunsOut(s, r, skipping, savedKey);
    }

    method ReverseToForward()
      requires s.Valid() && BackwardAt()
      modifies `pos, `forward
      ensures forward && 0 <= pos <= |s.log|
      ensures forall i :: 0 <= i < pos ==> s.log[i].key < savedKey
      ensures forall i :: pos <= i < |s.log| ==> savedKey <= s.log[i].key
    {
      if !InnerValid() {
        pos := SeekIndex(s.log, savedKey, MAX_SEQUENCE_NUMBER, TYPE_FOR_SEEK, 0);
      }
      forward := true;
      while InnerValid()
        invariant 0 <= pos <= |s.log| && forward
        invariant forall i :: 0 <= i < pos ==> s.log[i].key < savedKey
        decreases |s.log| - pos
      {
        if s.log[pos].key >= savedKey { return; }
        pos := pos + 1;
      }
    }

    method Next()
      requires Inv() && valid
      modifies this
      ensures Inv() && At() == First(s, Above(old(savedKey)), 0)
    {
      hide First, Landing, Ahead;
      if !forward {
        isKeySeqnumZero := false;
        ReverseToForward();
      } else if !currentEntryIsMerged {
        pos := pos + 1;
      }
      StartsAbove(s, pos, savedKey);
      if InnerValid() {
        FindNextUserEntry(true, Above(savedKey));
      } else {
        RunsOut(s, Above(savedKey), true, savedKey);
        isKeySeqnumZero, valid := false, false;
      }
    }

    method Seek(target: Key)
      requires Inv()
      modifies this
      ensures Inv() && At() == First(s, AtLeast(target), 0)
    {
      ok, isKeySeqnumZero, savedKey := true, false, target;
      pos := SeekIndex(s.log, target, s.seqno, TYPE_FOR_SEEK, 0);
      StartsAt(s, target);
      if !InnerValid() {
        RunsOut(s, AtLeast(target), false, target);
        valid := false;
        return;
      }
      forward := true;
      FindNextUserEntry(false, AtLeast(target));
    }

    method SeekToFirst()
      requires Inv()
      modifies this
      ensures Inv() && At() == First(s, Everything, 0)
    {
      ok, forward, isKeySeqnumZero := true, true, false;
      pos := 0;
      StartsAtFirst(s, savedKey);
      if InnerValid() {
        savedKey := s.log[pos].key;
        FindNextUserEntry(false, Everything);
      } else {
        RunsOut(s, Everything, false, savedKey);
        valid := false;
      }
    }

    // -------------------------------------------------------------- backward

    method FindUserKeyBeforeSavedKey()
      requires s.Valid() && -1 <= pos < |s.log|
      requires forall i :: pos < i < |s.log| ==> savedKey <= s.log[i].key
      modifies `pos
      ensures BackwardAt() && pos <= old(pos)
    {
      var numSkipped := 0;
      while InnerValid()
        invariant -1 <= pos <= old(pos)
        invariant forall i :: pos < i < |s.log| ==> savedKey <= s.log[i].key
        decreases pos
      {
        if s.log[pos].key < savedKey { return; }
        if numSkipped >= maxSkip {
          numSkipped := 0;
          pos := SeekIndex(s.log, savedKey, MAX_SEQUENCE_NUMBER, TYPE_FOR_SEEK, 0);
          if !InnerValid() { break; }
        } else {
          numSkipped := numSkipped + 1;
        }
        pos := pos - 1;
      }
    }

    method ReverseToBackward()
      requires s.Valid() && ForwardAt()
      modifies `pos, `forward
      ensures !forward && BackwardAt()
    {
      if currentEntryIsMerged && !InnerValid() {
        pos := SeekIndex(s.log, savedKey, MAX_SEQUENCE_NUMBER, TYPE_FOR_SEEK, 0);
        if !InnerValid() {
          pos := |s.log| - 1;
        }
      }
      forward := false;
      FindUserKeyBeforeSavedKey();
    }

    /** The user sees `savedKey` as the snapshot does, or an error if its merge fails. */
    ghost predicate Presents()
      reads this
    {
      match s.View(savedKey)
      case Hidden => !valid && ok
      case Shown(v) => valid && ok && value == v
      case Failed => !valid && !ok
    }

    method MergeFromNewest()
      requires InnerValid() && ok && s.log[pos].key == savedKey && s.log[pos].op.Merge?
      modifies `pos, `value, `valid, `ok
      ensures old(pos) < pos <= |s.log|
      ensures match s.OutcomeAt(old(pos))
              case Shown(v) => valid && ok && value == v
              case _ => !valid && !ok
    {
      var operands := [s.log[pos].op.operand];
      pos := pos + 1;
      while InnerValid()
        invariant old(pos) < pos <= |s.log| && ok
        invariant s.OutcomeAt(old(pos)) == s.Fold(savedKey, pos, operands)
        decreases |s.log| - pos
      {
        if s.log[pos].key != savedKey || s.log[pos].op.IsDeletion() { break; }
        if s.log[pos].op.Put? {
          SetMerged(Some(s.log[pos].op.value), operands);
          return;
        }
        operands := [s.log[pos].op.operand] + operands;
        pos := pos + 1;
      }
      SetMerged(None, operands);
    }

    method FindValueForCurrentKeyUsingSeek()
      requires s.Valid() && InnerValid() && ok && s.log[pos].key == savedKey && s.Visible(pos)
      modifies `pos, `value, `valid, `ok, `currentEntryIsMerged
      ensures Presents()
      ensures ok ==> 0 <= pos < |s.log| && forall i :: pos < i < |s.log| ==> savedKey <= s.log[i].key
    {
      hide Snapshot.View;
      SeekFindsNewest(s, pos);
      pos := SeekIndex(s.log, savedKey, s.seqno, TYPE_FOR_SEEK, 0);
      var e := s.log[pos];
      if e.op.IsDeletion() {
        valid := false;
        return;
      }
      if e.op.Put? {
        value, valid := e.op.value, true;
        return;
      }
      currentEntryIsMerged := true;
      MergeFromNewest();
      if !valid { return; }
      if !InnerValid() {
        pos := SeekIndex(s.log, savedKey, s.seqno, TYPE_FOR_SEEK, 0);
        if !InnerValid() {
          pos := |s.log| - 1;
        }
      }
    }

    /** From the oldest version of `savedKey` to the newest visible one. */
    method FindValueForCurrentKey()
      requires s.Valid() && InnerValid() && ok && s.log[pos].key == savedKey && LastOfKey(s, pos)
      modifies `pos, `value, `valid, `ok, `currentEntryIsMerged
      ensures Presents()
      ensures ok ==> -1 <= pos < |s.log| && forall i :: pos < i < |s.log| ==> savedKey <= s.log[i].key
    {
      hide Amounts, Snapshot.Valid, Snapshot.View, Snapshot.OutcomeAt;
      currentEntryIsMerged := false;
      var operands: seq<Value> := [];
      var base: Option<Value> := None;
      var lastOp := Deletion;
      var numSkipped := 0;
      ghost var oldest := pos;
      AmountsToNothing(savedKey, pos);
      while InnerValid()
        invariant -1 <= pos <= oldest && ok && !currentEntryIsMerged
        invariant forall i :: pos < i <= oldest ==> s.log[i].key == savedKey && s.Visible(i)
        invariant pos < oldest ==> s.log[pos + 1].op == lastOp
        invariant pos == oldest ==> lastOp == Deletion
        invariant Amounts(savedKey, pos + 1, base, operands)
        invariant lastOp.Put? ==> base == Some(lastOp.value)
        decreases pos
      {
        if s.log[pos].key != savedKey || s.log[pos].seqno > s.seqno { break; }
        if numSkipped >= maxSkip {
          FindValueForCurrentKeyUsingSeek();
          return;
        }
        AmountsOneMore(savedKey, pos, base, operands);
        lastOp := s.log[pos].op;
        match lastOp {
          case Put(v) => operands, base := [], Some(v);
          case Merge(v) => operands := operands + [v];
          case _ => operands, base := [], None;
        }
        pos := pos - 1;
        numSkipped := numSkipped + 1;
      }
      WhatWasCollected(savedKey, pos, oldest, base, operands);
      match lastOp
      case Put(v) => value, valid := v, true;
      case Merge(_) =>
        currentEntryIsMerged := true;
        SetMerged(base, operands);
      case _ => valid := false;
    }

    method PrevInternal(ghost r: Range)
      requires s.Valid() && Downward(r) && ok && !forward && -1 <= pos < |s.log| && Behind(s, r, pos)
      modifies this
      ensures Inv() && At() == Last(s, r, |s.log|)
    {
      hide HiddenAbove, Last, Snapshot.Valid, Snapshot.View;
      while InnerValid()
        invariant ok && !forward && -1 <= pos < |s.log| && Behind(s, r, pos)
        decreases pos
      {
        ghost var p := pos;
        savedKey := s.log[pos].key;
        FindValueForCurrentKey();
        if !ok {
          StopsAt(s, r, p);
          return;
        }
        FindUserKeyBeforeSavedKey();
        if valid {
          StopsAt(s, r, p);
          return;
        }
        Descend(s, r, p, pos);
      }
      ComesToEnd(s, r);
      valid := false;
    }

    method Prev()
      requires Inv() && valid
      modifies this
      ensures Inv() && At() == Last(s, Below(old(savedKey)), |s.log|)
    {
      if forward {
        ReverseToBackward();
      }
      StartsBehind(s, Below(savedKey), pos);
      PrevInternal(Below(savedKey));
    }

    method SeekForPrev(target: Key)
      requires Inv()
      modifies this
      ensures Inv() && At() == Last(s, AtMost(target), |s.log|)
    {
      ok, isKeySeqnumZero, savedKey := true, false, target;
      pos := SeekForPrevIndex(s.log, target, 0, TYPE_DELETION, |s.log|);
      StartsBehind(s, AtMost(target), pos);
      if !InnerValid() {
        ComesToEnd(s, AtMost(target));
        valid := false;
        return;
      }
      forward := false;
      PrevInternal(AtMost(target));
    }

    method SeekToLast()
      requires Inv()
      modifies this
      ensures Inv() && At() == Last(s, Everything, |s.log|)
    {
      ok, forward, isKeySeqnumZero := true, false, false;
      pos := |s.log| - 1;
      StartsBehind(s, Everything, pos);
      PrevInternal(Everything);
    }

    // -------------------------------------------------------------- whole runs

    /** Every run shows the client exactly what the plain cursor shows; `maxSkip` does not matter. */
    method Run(moves: seq<Move>) returns (seen: seq<Position>)
      requires Inv()
      modifies this
      ensures Inv() && seen == Trace(s, old(At()), moves)
    {
      hide Inv;
      seen := [];
      for i := 0 to |moves|
        invariant Inv() && seen == Trace(s, old(At()), moves[..i])
        invariant At() == if i == 0 then old(At()) else seen[i - 1]
      {
        TraceExtends(s, old(At()), moves[..i], moves[i]);
        assert moves[..i + 1] == moves[..i] + [moves[i]];
        Step(moves[i]);
        seen := seen + [At()];
      }
      assert moves[..|moves|] == moves;
    }

    method Step(m: Move)
      requires Inv()
      modifies this
      ensures Inv() && At() == Stepped(s, old(At()), m)
      ensures valid ==> s.View(savedKey) == Shown(value)
    {
      hide Inv, First, Last;
      match m {
        case SeekToFirst => SeekToFirst();
        case SeekToLast => SeekToLast();
        case Seek(k) => Seek(k);
        case SeekForPrev(k) => SeekForPrev(k);
        case Next => if valid { Next(); }
        case Prev => if valid { Prev(); }
      }
      ShowsView();
    }

    /** The value that a client reads is the one that the snapshot gives the key. */
    lemma ShowsView()
      requires Inv()
      ensures valid ==> s.View(savedKey) == Shown(value)
    {
    }
  }
}
