/** Where a stream of records is cut into chunks. */
module Cutting {
  import opened Bytes
  import SC = SimpleChunk

  /** No record is longer than a slice can be. */
  const MAX_RECORD: nat := 0x7FFF_FFFF_FFFF_FFFF

  /** The accounted size of a group of records: their sizes plus eight bytes each. */
  function Accounted(records: seq<Bytes>): nat { SC.TotalSize(records) + 8 * |records| }

  /** A chunk the threshold allows: within it, or a single record that no chunk could hold better. */
  predicate WithinThreshold(records: seq<Bytes>, chunkSize: nat) {
    || Accounted(records) <= chunkSize
    || (|records| == 1 && |records[0]| <= MAX_RECORD)
  }

  /** Records that may wait for more: an empty one still fits. */
  predicate CanWait(pending: seq<Bytes>, chunkSize: nat) { pending == [] || Accounted(pending) + 8 <= chunkSize }

  lemma AccountedSnoc(records: seq<Bytes>, data: Bytes)
    ensures Accounted(records + [data]) == Accounted(records) + |data| + 8
    ensures Accounted(records) == 0 ==> records == []
  {
    SC.SectionsSnoc(records, data);
  }

  lemma {:induction false} AccountedGrows(few: seq<Bytes>, many: seq<Bytes>)
    requires few <= many
    ensures Accounted(few) <= Accounted(many)
    decreases |few|
  {
    if few != [] {
      AccountedGrows(few[1..], many[1..]);
    }
  }

  // ---------------------------------------------------------------- one record after the other

  /** The groups that have been closed, each to become a chunk, and the records that wait. */
  datatype Cut = Cut(groups: seq<seq<Bytes>>, pending: seq<Bytes>)

  /**
   What one more record closes: the records waiting if it does not fit with them, and then the
   group it has joined if nothing more fits there.
   */
  function Accept(pending: seq<Bytes>, data: Bytes, chunkSize: nat): Cut {
    var full := pending != [] && Accounted(pending) + |data| + 8 > chunkSize;
    var before, now := if full then [pending] else [], (if full then [] else pending) + [data];
    if Accounted(now) + 8 > chunkSize then Cut(before + [now], []) else Cut(before, now)
  }

  /** A record closes nothing exactly when it and an empty one still fit with those that wait. */
  lemma ClosesNothingIffFits(pending: seq<Bytes>, data: Bytes, chunkSize: nat)
    ensures Accept(pending, data, chunkSize).groups == [] <==> Accounted(pending) + |data| + 16 <= chunkSize
    ensures Accept(pending, data, chunkSize).groups == [] ==>
      Accept(pending, data, chunkSize).pending == pending + [data]
  {
    AccountedSnoc(pending, data);
    AccountedSnoc([], data);
    assert [] + [data] == [data];
  }

  lemma AcceptKeepsWaiting(pending: seq<Bytes>, data: Bytes, chunkSize: nat)
    ensures CanWait(Accept(pending, data, chunkSize).pending, chunkSize)
  {
  }

  /** The cut after a whole sequence of records. */
  function CutAll(records: seq<Bytes>, chunkSize: nat): Cut
    decreases |records|
  {
    if records == [] then Cut([], [])
    else
      var n := |records| - 1;
      var so := CutAll(records[..n], chunkSize);
      var one := Accept(so.pending, records[n], chunkSize);
      Cut(so.groups + one.groups, one.pending)
  }

  lemma CutOneMore(records: seq<Bytes>, data: Bytes, chunkSize: nat)
    ensures var so := CutAll(records, chunkSize);
      var one := Accept(so.pending, data, chunkSize);
      CutAll(records + [data], chunkSize) == Cut(so.groups + one.groups, one.pending)
  {
    assert (records + [data])[..|records|] == records;
  }

  // ---------------------------------------------------------------- the cut is the greedy one

  /** All the records of a cut, in order. */
  function Joined(groups: seq<seq<Bytes>>, pending: seq<Bytes>): seq<Bytes> {
    if groups == [] then pending else groups[0] + Joined(groups[1..], pending)
  }

  /** A group that fits, or a single record, and that cannot take what comes `after` it: not even an empty record. */
  predicate Maximal(group: seq<Bytes>, after: seq<Bytes>, chunkSize: nat) {
    && group != [] && (Accounted(group) <= chunkSize || |group| == 1)
    && (if after == [] then Accounted(group) + 8 > chunkSize else Accounted(group + [after[0]]) > chunkSize)
  }

  /** Every group is as long as it can be, and an empty record still fits with those that wait. */
  predicate Greedy(groups: seq<seq<Bytes>>, pending: seq<Bytes>, chunkSize: nat) {
    if groups == [] then CanWait(pending, chunkSize)
    else Maximal(groups[0], Joined(groups[1..], pending), chunkSize) && Greedy(groups[1..], pending, chunkSize)
  }

  lemma {:induction false} JoinedSnoc(groups: seq<seq<Bytes>>, pending: seq<Bytes>, data: Bytes)
    ensures Joined(groups, pending + [data]) == Joined(groups, pending) + [data]
    ensures pending != [] ==> Joined(groups + [pending], []) == Joined(groups, pending)
    decreases |groups|
  {
    if groups != [] {
      JoinedSnoc(groups[1..], pending, data);
      assert (groups + [pending])[1..] == groups[1..] + [pending];
    } else {
      assert [pending][1..] == [];
    }
  }

  /** More records waiting at the end change nothing about the groups before, once they have something behind them. */
  lemma {:induction false} WaitingMore(groups: seq<seq<Bytes>>, pending: seq<Bytes>, data: Bytes, chunkSize: nat)
    requires Greedy(groups, pending, chunkSize) && CanWait(pending + [data], chunkSize)
    ensures Greedy(groups, pending + [data], chunkSize)
    decreases |groups|
  {
    if groups != [] {
      JoinedSnoc(groups[1..], pending, data);
      AccountedSnoc(groups[0], data);
      WaitingMore(groups[1..], pending, data, chunkSize);
    }
  }

  /** Closing the records that wait, when the next one does not fit with them, keeps the cut greedy. */
  lemma {:induction false} Closing(groups: seq<seq<Bytes>>, pending: seq<Bytes>, data: Bytes, chunkSize: nat)
    requires Greedy(groups, pending, chunkSize) && pending != [] && CanWait([data], chunkSize)
    requires Accounted(pending + [data]) > chunkSize
    ensures Greedy(groups + [pending], [data], chunkSize)
    decreases |groups|
  {
    if groups != [] {
      assert (groups + [pending])[1..] == groups[1..] + [pending];
      JoinedSnoc(groups[1..], pending, data);
      JoinedSnoc(groups[1..] + [pending], [], data);
      assert [] + [data] == [data];
      Closing(groups[1..], pending, data, chunkSize);
    } else {
      assert [pending][1..] == [];
    }
  }

  /** So does closing a group to which not even an empty record can be added. */
  lemma {:induction false} ClosingFull(groups: seq<seq<Bytes>>, pending: seq<Bytes>, data: Bytes, chunkSize: nat)
    requires Greedy(groups, pending, chunkSize)
    requires var now := pending + [data];
      (Accounted(now) <= chunkSize || pending == []) && Accounted(now) + 8 > chunkSize
    ensures Greedy(groups + [pending + [data]], [], chunkSize)
    decreases |groups|
  {
    var now := pending + [data];
    if groups != [] {
      assert (groups + [now])[1..] == groups[1..] + [now];
      JoinedSnoc(groups[1..], pending, data);
      JoinedSnoc(groups[1..], now, data);
      AccountedSnoc(groups[0], data);
      ClosingFull(groups[1..], pending, data, chunkSize);
    } else {
      assert (groups + [now])[1..] == [];
    }
  }

  /** ... and closing first the records that wait and then a record too large to wait. */
  lemma {:induction false} ClosingBoth(groups: seq<seq<Bytes>>, pending: seq<Bytes>, data: Bytes, chunkSize: nat)
    requires Greedy(groups, pending, chunkSize) && pending != []
    requires Accounted(pending + [data]) > chunkSize && Accounted([data]) + 8 > chunkSize
    ensures Greedy(groups + [pending] + [[data]], [], chunkSize)
    decreases |groups|
  {
    var all := groups + [pending] + [[data]];
    if groups != [] {
      assert all[1..] == groups[1..] + [pending] + [[data]];
      JoinedSnoc(groups[1..], pending, data);
      JoinedSnoc(groups[1..] + [pending], [], data);
      assert [] + [data] == [data];
      JoinedSnoc(groups[1..] + [pending], [data], data);
      ClosingBoth(groups[1..], pending, data, chunkSize);
    } else {
      assert all[1..] == [[data]] && [[data]][1..] == [];
    }
  }

  lemma AcceptKeepsGreedy(groups: seq<seq<Bytes>>, pending: seq<Bytes>, data: Bytes, chunkSize: nat)
    requires Greedy(groups, pending, chunkSize)
    ensures var one := Accept(pending, data, chunkSize);
      && Greedy(groups + one.groups, one.pending, chunkSize)
      && Joined(groups + one.groups, one.pending) == Joined(groups, pending) + [data]
  {
    hide Greedy, Maximal, Accounted;
    AccountedSnoc(pending, data);
    AccountedSnoc([], data);
    JoinedSnoc(groups, pending, data);
    JoinedSnoc(groups, pending + [data], data);
    JoinedSnoc(groups + [pending], [], data);
    JoinedSnoc(groups + [pending], [data], data);
    assert [] + [data] == [data];
    var one := Accept(pending, data, chunkSize);
    if pending != [] && Accounted(pending) + |data| + 8 > chunkSize {
      if one.pending == [] {
        assert groups + one.groups == groups + [pending] + [[data]];
        ClosingBoth(groups, pending, data, chunkSize);
      } else {
        Closing(groups, pending, data, chunkSize);
      }
    } else if one.pending == [] {
      assert one.groups == [pending + [data]];
      ClosingFull(groups, pending, data, chunkSize);
    } else {
      assert groups + [] == groups;
      WaitingMore(groups, pending, data, chunkSize);
    }
  }

  /** However many records there are, every group is as long as it can be, and no record is lost or moved. */
  lemma {:induction false} CutIsGreedy(records: seq<Bytes>, chunkSize: nat)
    ensures var c := CutAll(records, chunkSize);
      Greedy(c.groups, c.pending, chunkSize) && Joined(c.groups, c.pending) == records
    decreases |records|
  {
    hide Accept, Greedy, Joined;
    if records == [] {
      NothingCut(chunkSize);
    } else {
      var n := |records| - 1;
      CutIsGreedy(records[..n], chunkSize);
      var so := CutAll(records[..n], chunkSize);
      AcceptKeepsGreedy(so.groups, so.pending, records[n], chunkSize);
      assert records == records[..n] + [records[n]];
    }
  }

  lemma NothingCut(chunkSize: nat)
    ensures Greedy([], [], chunkSize) && Joined([], []) == []
  {
  }

  /** There is only one way of cutting the same records like that. */
  lemma {:induction false} GreedyIsUnique(a: seq<seq<Bytes>>, pa: seq<Bytes>, b: seq<seq<Bytes>>, pb: seq<Bytes>,
                                          chunkSize: nat)
    requires Greedy(a, pa, chunkSize) && Greedy(b, pb, chunkSize) && Joined(a, pa) == Joined(b, pb)
    ensures a == b && pa == pb
    decreases |a| + |b|
  {
    if a == [] && b != [] {
      NoGroupInside(pa, b[0], Joined(b[1..], pb), chunkSize);
    } else if b == [] && a != [] {
      NoGroupInside(pb, a[0], Joined(a[1..], pa), chunkSize);
    } else if a != [] {
      var resta, restb := Joined(a[1..], pa), Joined(b[1..], pb);
      assert a[0] + resta == b[0] + restb;
      if |a[0]| < |b[0]| {
        NoLongerGroup(a[0], resta, b[0], restb, chunkSize);
      } else if |b[0]| < |a[0]| {
        NoLongerGroup(b[0], restb, a[0], resta, chunkSize);
      }
      assert a[0] == (a[0] + resta)[..|a[0]|] == b[0];
      assert resta == (a[0] + resta)[|a[0]|..] == restb;
      GreedyIsUnique(a[1..], pa, b[1..], pb, chunkSize);
    }
  }

  /** Records that may wait do not begin with a closed group. */
  lemma NoGroupInside(pending: seq<Bytes>, group: seq<Bytes>, after: seq<Bytes>, chunkSize: nat)
    requires CanWait(pending, chunkSize) && pending == group + after
    ensures !Maximal(group, after, chunkSize)
  {
    hide Accounted;
    if after == [] {
      assert group == pending;
    } else {
      assert group + [after[0]] <= pending;
      AccountedGrows(group + [after[0]], pending);
    }
  }

  /** A closed group is not the beginning of a longer one. */
  lemma NoLongerGroup(group: seq<Bytes>, after: seq<Bytes>, longer: seq<Bytes>, after': seq<Bytes>, chunkSize: nat)
    requires group + after == longer + after' && |group| < |longer|
    requires Maximal(group, after, chunkSize)
    ensures !Maximal(longer, after', chunkSize)
  {
    hide Accounted;
    assert longer == (group + after)[..|longer|];
    assert after[0] == longer[|group|];
    assert group + [after[0]] <= longer;
    AccountedGrows(group + [after[0]], longer);
  }
}
