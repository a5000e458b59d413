/** What the two monitors share: the `lastCheckedId` cursor that filters a
    fetched batch, the cursor update, oldest-first processing, and the
    `start`/`stop` life cycle with its interval timer. */
module Polling {
  import opened Wrappers
  import opened Text
  import opened Tweets

  // ---------------------------------------------------------------------
  // The cursor filter
  // ---------------------------------------------------------------------

  /** `!(this.lastCheckedId && id <= this.lastCheckedId)`: with no cursor (or
      an empty one) every id is new; otherwise only ids lexically greater. */
  predicate IsNew(id: string, cursor: Option<string>)
  {
    !Truthy(cursor) || !LexLe(id, cursor.value)
  }

  /** The fetch loop: the tweets of `batch`, in fetch order, that pass the
      cursor test and the monitor's own test `wanted`. */
  function Select(batch: seq<Tweet>, cursor: Option<string>, wanted: Tweet -> bool): (r: seq<Tweet>)
    ensures |r| <= |batch|
  {
    if batch == [] then []
    else
      var last := batch[|batch| - 1];
      Select(batch[..|batch| - 1], cursor, wanted) + (if IsNew(last.id, cursor) && wanted(last) then [last] else [])
  }

  /** The selection keeps exactly the tweets of the batch that are new and
      wanted. */
  lemma {:induction false} SelectMembers(batch: seq<Tweet>, cursor: Option<string>, wanted: Tweet -> bool)
    ensures forall t :: t in Select(batch, cursor, wanted) <==> t in batch && IsNew(t.id, cursor) && wanted(t)
  {
    if batch != [] {
      var init, last := batch[..|batch| - 1], batch[|batch| - 1];
      SelectMembers(init, cursor, wanted);
      assert batch == init + [last];
    }
  }

  /** One step of the fetch loop: a tweet appended to the batch is appended
      to the selection when it passes both tests. */
  lemma SelectSnoc(init: seq<Tweet>, last: Tweet, cursor: Option<string>, wanted: Tweet -> bool)
    ensures Select(init + [last], cursor, wanted)
            == Select(init, cursor, wanted) + (if IsNew(last.id, cursor) && wanted(last) then [last] else [])
  {
    var batch := init + [last];
    assert batch[..|batch| - 1] == init && batch[|batch| - 1] == last;
  }

  /** `if (kept.length > 0) this.lastCheckedId = kept[0].id`. */
  function NextCursor(cursor: Option<string>, kept: seq<Tweet>): Option<string>
  {
    if kept != [] then Some(kept[0].id) else cursor
  }

  /** `kept.reverse()`: the order in which the kept tweets are processed. */
  function Reverse<T>(s: seq<T>): (r: seq<T>)
    ensures |r| == |s|
    ensures forall i :: 0 <= i < |s| ==> r[i] == s[|s| - 1 - i]
  {
    if s == [] then [] else [s[|s| - 1]] + Reverse(s[..|s| - 1])
  }

  /** With no cursor, or an empty one, every wanted tweet is kept. */
  lemma {:induction false} NoCursorKeepsAll(batch: seq<Tweet>, cursor: Option<string>, wanted: Tweet -> bool)
    requires !Truthy(cursor)
    requires forall i :: 0 <= i < |batch| ==> wanted(batch[i])
    ensures Select(batch, cursor, wanted) == batch
  {
    if batch != [] {
      var init, last := SplitLast(batch);
      NoCursorKeepsAll(init, cursor, wanted);
      SelectSnoc(init, last, cursor, wanted);
    }
  }

  /** A non-empty sequence is its prefix followed by its last element. */
  lemma SplitLast<T>(s: seq<T>) returns (init: seq<T>, last: T)
    requires s != []
    ensures init == s[..|s| - 1] && last == s[|s| - 1] && s == init + [last]
    ensures forall i :: 0 <= i < |init| ==> init[i] == s[i]
  {
    init, last := s[..|s| - 1], s[|s| - 1];
  }

  /** The cursor only moves forward: when a poll keeps something, the new
      cursor is lexically greater than a set old one; otherwise it stays. */
  lemma CursorAdvances(batch: seq<Tweet>, cursor: Option<string>, wanted: Tweet -> bool)
    ensures var kept := Select(batch, cursor, wanted);
      && (kept == [] ==> NextCursor(cursor, kept) == cursor)
      && (kept != [] && Truthy(cursor) ==> LexLt(cursor.value, NextCursor(cursor, kept).value))
  {
    var kept := Select(batch, cursor, wanted);
    if kept != [] && Truthy(cursor) {
      SelectMembers(batch, cursor, wanted);
      assert kept[0] in kept;
      NotLeIsGreater(kept[0].id, cursor.value);
    }
  }

  // ---------------------------------------------------------------------
  // Newest-first batches
  // ---------------------------------------------------------------------

  /** Ids strictly decreasing in fetch order, as the service returns them. */
  predicate Descending(batch: seq<Tweet>)
  {
    forall i, j :: 0 <= i < j < |batch| ==> LexLt(batch[j].id, batch[i].id)
  }

  /** Filtering keeps a batch newest-first. */
  lemma {:induction false} SelectDescending(batch: seq<Tweet>, cursor: Option<string>, wanted: Tweet -> bool)
    requires Descending(batch)
    ensures Descending(Select(batch, cursor, wanted))
  {
    if batch != [] {
      var init, last := SplitLast(batch);
      assert Descending(init);
      SelectDescending(init, cursor, wanted);
      SelectSnoc(init, last, cursor, wanted);
      if IsNew(last.id, cursor) && wanted(last) {
        var s := Select(init, cursor, wanted);
        SelectMembers(init, cursor, wanted);
        forall x | x in s ensures LexLt(last.id, x.id) {
          var k :| 0 <= k < |init| && init[k] == x;
          assert batch[k] == x;
        }
        DescendingSnoc(s, last);
      }
    }
  }

  /** A tweet older than every tweet of a newest-first sequence can follow it. */
  lemma DescendingSnoc(s: seq<Tweet>, last: Tweet)
    requires Descending(s)
    requires forall x :: x in s ==> LexLt(last.id, x.id)
    ensures Descending(s + [last])
  {
    var r := s + [last];
    forall i, j | 0 <= i < j < |r| ensures LexLt(r[j].id, r[i].id) {
      assert r[i] == s[i];
      if j == |s| {
        assert s[i] in s;
      } else {
        assert r[j] == s[j];
      }
    }
  }

  /** In a newest-first selection, every kept id is at or below the first. */
  lemma KeptUpToFirst(kept: seq<Tweet>, t: Tweet)
    requires Descending(kept) && t in kept
    ensures LexLe(t.id, kept[0].id)
  {
    var i :| 0 <= i < |kept| && kept[i] == t;
    if i == 0 {
      LexLeReflexive(t.id);
    }
  }

  /** After a poll of a newest-first batch, every kept tweet, processed or
      not, is at or behind the new cursor: no later poll can keep it again. */
  lemma KeptAreBehindCursor(batch: seq<Tweet>, cursor: Option<string>, wanted: Tweet -> bool, t: Tweet)
    requires Descending(batch)
    requires forall u :: u in batch ==> u.id != ""
    requires t in Select(batch, cursor, wanted)
    ensures !IsNew(t.id, NextCursor(cursor, Select(batch, cursor, wanted)))
  {
    var kept := Select(batch, cursor, wanted);
    SelectDescending(batch, cursor, wanted);
    KeptUpToFirst(kept, t);
    assert kept[0] in kept;
  }

  /** The tweets kept by each of a run of polls, the cursor carried from one
      poll to the next. */
  function Run(cursor: Option<string>, batches: seq<seq<Tweet>>, wanted: Tweet -> bool): (r: seq<seq<Tweet>>)
    ensures |r| == |batches|
    decreases |batches|
  {
    if batches == [] then []
    else
      var kept := Select(batches[0], cursor, wanted);
      [kept] + Run(NextCursor(cursor, kept), batches[1..], wanted)
  }

  /** Every batch of the run newest-first, every id non-empty. */
  predicate WellOrderedBatches(batches: seq<seq<Tweet>>)
  {
    forall p :: 0 <= p < |batches| ==> Descending(batches[p]) && forall u :: u in batches[p] ==> u.id != ""
  }

  /** Passing a later cursor implies passing an earlier one. */
  lemma NewerThanNewerCursor(id: string, cursor: Option<string>, next: string)
    requires next != "" && IsNew(next, cursor) && IsNew(id, Some(next))
    ensures IsNew(id, cursor)
  {
    if Truthy(cursor) {
      NotLeIsGreater(next, cursor.value);
      NotLeIsGreater(id, next);
      LexLeTransitive(cursor.value, next, id);
      if LexLe(id, cursor.value) {
        LexLeTransitive(id, cursor.value, next);
        LexLeAntisymmetric(id, next);
        assert false;
      }
    }
  }

  /** Every tweet kept anywhere in a run is new with respect to the cursor
      the run started from. */
  lemma {:induction false} RunAboveStart(cursor: Option<string>, batches: seq<seq<Tweet>>, wanted: Tweet -> bool, p: nat, t: Tweet)
    requires WellOrderedBatches(batches)
    requires p < |batches| && t in Run(cursor, batches, wanted)[p]
    ensures IsNew(t.id, cursor)
    decreases p
  {
    var kept := Select(batches[0], cursor, wanted);
    SelectMembers(batches[0], cursor, wanted);
    if p > 0 {
      var next := NextCursor(cursor, kept);
      assert Run(cursor, batches, wanted)[p] == Run(next, batches[1..], wanted)[p - 1];
      assert WellOrderedBatches(batches[1..]) by {
        forall q | 0 <= q < |batches| - 1 ensures batches[1..][q] == batches[q + 1] { }
      }
      RunAboveStart(next, batches[1..], wanted, p - 1, t);
      if kept != [] {
        assert kept[0] in kept;
        NewerThanNewerCursor(t.id, cursor, kept[0].id);
      }
    }
  }

  /** Deduplication across polls: when every batch is fetched newest-first,
      no tweet id is kept by two different polls. */
  lemma {:induction false} NoIdKeptTwice(cursor: Option<string>, batches: seq<seq<Tweet>>, wanted: Tweet -> bool,
                                        p: nat, q: nat, t: Tweet, u: Tweet)
    requires WellOrderedBatches(batches)
    requires p < q < |batches|
    requires t in Run(cursor, batches, wanted)[p] && u in Run(cursor, batches, wanted)[q]
    ensures t.id != u.id
    decreases p
  {
    var kept := Select(batches[0], cursor, wanted);
    var next := NextCursor(cursor, kept);
    var rest := Run(next, batches[1..], wanted);
    assert WellOrderedBatches(batches[1..]) by {
      forall r | 0 <= r < |batches| - 1 ensures batches[1..][r] == batches[r + 1] { }
    }
    assert Run(cursor, batches, wanted)[q] == rest[q - 1];
    if p == 0 {
      assert t in kept;
      RunAboveStart(next, batches[1..], wanted, q - 1, u);
      KeptAreBehindCursor(batches[0], cursor, wanted, t);
      if t.id == u.id {
        assert false;
      }
    } else {
      assert Run(cursor, batches, wanted)[p] == rest[p - 1];
      NoIdKeptTwice(next, batches[1..], wanted, p - 1, q - 1, t, u);
    }
  }

  /** The newest-first order is what makes this work: a batch fetched
      oldest-first leaves the cursor at its oldest tweet, and the next poll
      of the same batch keeps the newer tweet again. */
  lemma OldestFirstBatchRepeats(older: Tweet, newer: Tweet, wanted: Tweet -> bool)
    requires older.id == "1" && newer.id == "2"
    requires wanted(older) && wanted(newer)
    ensures var run := Run(None, [[older, newer], [older, newer]], wanted);
      newer in run[0] && newer in run[1]
  {
    var batch := [older, newer];
    NoCursorKeepsAll(batch, None, wanted);
    assert !LexLe("2", "1") by {
      assert "2"[0] == '2' && "1"[0] == '1';
    }
    assert batch == [older] + [newer];
    SelectSnoc([older], newer, Some("1"), wanted);
    var second := Select(batch, Some("1"), wanted);
    assert second[|second| - 1] == newer;
    RunCons(None, batch, [batch], wanted);
    RunCons(Some("1"), batch, [], wanted);
    assert [batch, batch] == [batch] + [batch];
  }

  /** One unfolding of `Run` on a run with a known first batch. */
  lemma RunCons(cursor: Option<string>, batch: seq<Tweet>, rest: seq<seq<Tweet>>, wanted: Tweet -> bool)
    ensures var kept := Select(batch, cursor, wanted);
      Run(cursor, [batch] + rest, wanted) == [kept] + Run(NextCursor(cursor, kept), rest, wanted)
  {
    assert ([batch] + rest)[0] == batch && ([batch] + rest)[1..] == rest;
  }

  // ---------------------------------------------------------------------
  // start / stop
  // ---------------------------------------------------------------------

  /** The life-cycle fields of a monitor. `intervalId` is the handle the
      monitor holds, `live` the handles of intervals still firing, `nextHandle`
      the handle the next `setInterval` returns, and `pendingStarts` the
      `start` calls still awaiting their initial poll. */
  datatype Lifecycle = Lifecycle(isMonitoring: bool, intervalId: Option<nat>, live: set<nat>, nextHandle: nat, pendingStarts: nat)

  const IDLE := Lifecycle(false, None, {}, 0, 0)

  /** The first half of `start`, up to the initial poll: nothing when already
      monitoring; otherwise monitoring is switched on and the call waits for
      its poll. */
  function BeginStart(l: Lifecycle): Lifecycle
  {
    if l.isMonitoring then l
    else l.(isMonitoring := true, pendingStarts := l.pendingStarts + 1)
  }

  /** The second half of `start`, after the initial poll: a fresh interval is
      armed and its handle stored, whatever happened in between. */
  function FinishStart(l: Lifecycle): Lifecycle
    requires l.pendingStarts > 0
  {
    l.(intervalId := Some(l.nextHandle), live := l.live + {l.nextHandle},
       nextHandle := l.nextHandle + 1, pendingStarts := l.pendingStarts - 1)
  }

  /** `stop`: nothing when not monitoring; otherwise the held interval (if
      any) is cleared and monitoring switched off. */
  function Stop(l: Lifecycle): Lifecycle
  {
    if !l.isMonitoring then l
    else if l.intervalId.Some? then l.(live := l.live - {l.intervalId.value}, intervalId := None, isMonitoring := false)
    else l.(isMonitoring := false)
  }

  /** A monitor whose starts have all completed and whose only live interval,
      if any, is the one it holds, held exactly while monitoring. */
  predicate Tidy(l: Lifecycle)
  {
    && l.pendingStarts == 0
    && l.live == (if l.intervalId.Some? then {l.intervalId.value} else {})
    && (l.isMonitoring <==> l.intervalId.Some?)
    && (forall h :: h in l.live ==> h < l.nextHandle)
  }

  /** `start` while monitoring and `stop` while not monitoring do nothing;
      `stop` leaves the monitor off without a held interval. */
  lemma StartStopGuards(l: Lifecycle)
    ensures l.isMonitoring ==> BeginStart(l) == l
    ensures !l.isMonitoring ==> Stop(l) == l
    ensures l.isMonitoring ==> (!Stop(l).isMonitoring && Stop(l).intervalId.None?
      && Stop(l).live == l.live - (if l.intervalId.Some? then {l.intervalId.value} else {}))
  {
  }

  /** When every `start` completes before anything else happens, the monitor
      stays tidy: at most one interval is live, the one it can clear. */
  lemma TidyPreserved(l: Lifecycle)
    requires Tidy(l)
    ensures Tidy(Stop(l))
    ensures !l.isMonitoring ==> Tidy(FinishStart(BeginStart(l))) && FinishStart(BeginStart(l)).isMonitoring
    ensures l.isMonitoring ==> BeginStart(l) == l
  {
    if !l.isMonitoring {
      var l2 := FinishStart(BeginStart(l));
      assert l.live == {};
      assert l2.live == {l.nextHandle};
    }
  }

  /** A `stop` during the initial poll of a `start` finds no interval to
      clear; the `start` then arms one anyway. The monitor ends up off with
      a live interval that `stop` can no longer clear, and a new `start`
      arms a second one while the first keeps firing. */
  lemma StopDuringStartLeaksInterval(l: Lifecycle)
    requires Tidy(l) && !l.isMonitoring
    ensures var leaked := FinishStart(Stop(BeginStart(l)));
      && !leaked.isMonitoring
      && leaked.intervalId.Some? && leaked.intervalId.value in leaked.live
      && Stop(leaked) == leaked
      && var restarted := FinishStart(BeginStart(leaked));
         && restarted.isMonitoring
         && |restarted.live| == 2
         && leaked.intervalId.value in restarted.live
         && restarted.intervalId != leaked.intervalId
  {
    var leaked := FinishStart(Stop(BeginStart(l)));
    assert l.live == {};
    assert leaked.live == {l.nextHandle};
    var restarted := FinishStart(BeginStart(leaked));
    assert restarted.live == {l.nextHandle, l.nextHandle + 1};
  }
}
