/** Round-robin fairness of the instance ID allocator, over the history of one
  endpoint in one context.
 */
module InstanceIdFairness {
  import opened Bits
  import opened InstanceId

  /** Between positions a and b, `j` was granted or found unavailable */
  ghost predicate Visited(h: seq<Event>, a: int, b: int, j: nat) {
    exists k :: 0 <= k < |h| && a < k < b && h[k].iid == j && !h[k].Freed?
  }

  /** Between two grants of one instance ID every other one had its turn */
  ghost predicate Fair(h: seq<Event>) {
    forall a, b, j: nat | 0 <= a < b < |h| && h[a].Taken? && h[b] == h[a] && j < INST_ID_MAX && j != h[a].iid ::
      Visited(h, a, b, j)
  }

  /** A grant is never repeated before another instance ID was granted */
  ghost predicate Alternating(h: seq<Event>) {
    forall a, b | 0 <= a < b < |h| && h[a].Taken? && h[b] == h[a] ::
      exists k :: a < k < b && h[k].Taken? && h[k] != h[a]
  }

  /** Since each grant, the scan has gone from there to `prev` */
  ghost predicate Covered(prev: nat, h: seq<Event>)
    requires prev < INST_ID_MAX
  {
    forall a, j: nat | 0 <= a < |h| && h[a].Taken? && h[a].iid < INST_ID_MAX && j < INST_ID_MAX
                       && 0 < Distance(h[a].iid, j) <= Distance(h[a].iid, prev) :: Visited(h, a, |h|, j)
  }

  ghost predicate LastGrantIs(prev: nat, h: seq<Event>) {
    forall a | 0 <= a < |h| && h[a].Taken? && h[a].iid != prev :: exists k :: a < k < |h| && h[k] == Taken(prev)
  }

  function CountTaken(h: seq<Event>): nat {
    if h == [] then 0 else CountTaken(h[..|h| - 1]) + if h[|h| - 1].Taken? then 1 else 0
  }

  function CountFreed(h: seq<Event>): nat {
    if h == [] then 0 else CountFreed(h[..|h| - 1]) + if h[|h| - 1].Freed? then 1 else 0
  }

  ghost predicate RoundRobin(prev: nat, h: seq<Event>)
    requires prev < INST_ID_MAX
  {
    && (forall k | 0 <= k < |h| :: h[k].iid < INST_ID_MAX)
    && Covered(prev, h) && Fair(h)
    && LastGrantIs(prev, h) && Alternating(h)
  }

  /** What the history of an endpoint says about its state */
  ghost predicate HistoryOk(st: EidState, h: seq<Event>) {
    && st.Valid()
    && RoundRobin(st.prev, h)
    && |st.Allocated()| + CountFreed(h) == CountTaken(h)
  }

  lemma VisitedLater(h: seq<Event>, more: seq<Event>, a: int, b: int, b': int, j: nat)
    requires Visited(h, a, b, j) && b <= b'
    ensures Visited(h + more, a, b', j)
  {
    var k :| 0 <= k < |h| && a < k < b && h[k].iid == j && !h[k].Freed?;
    assert (h + more)[k] == h[k];
  }

  lemma VisitedNow(h: seq<Event>, log: seq<Event>, a: int, b: int, j: nat, i: nat)
    requires a < |h| && i < |log| && |h| + i < b && log[i].iid == j && !log[i].Freed?
    ensures Visited(h + log, a, b, j)
  {
    assert (h + log)[|h| + i] == log[i];
  }

  lemma {:induction false} CountQuiet(h: seq<Event>, log: seq<Event>)
    requires forall k | 0 <= k < |log| :: !log[k].Taken? && !log[k].Freed?
    ensures CountTaken(h + log) == CountTaken(h) && CountFreed(h + log) == CountFreed(h)
  {
    if log == [] {
      assert h + log == h;
    } else {
      CountQuiet(h, log[..|log| - 1]);
      assert (h + log)[..|h + log| - 1] == h + log[..|log| - 1];
    }
  }

  /** Nothing but a grant can disturb the order */
  lemma WithoutGrant(prev: nat, h: seq<Event>, log: seq<Event>)
    requires prev < INST_ID_MAX && RoundRobin(prev, h)
    requires forall k | 0 <= k < |log| :: !log[k].Taken? && log[k].iid < INST_ID_MAX
    ensures RoundRobin(prev, h + log)
  {
    var h' := h + log;
    forall a | |h| <= a < |h'| ensures !h'[a].Taken? { assert h'[a] == log[a - |h|]; }
    forall a, j: nat | 0 <= a < |h'| && h'[a].Taken? && j < INST_ID_MAX
                       && 0 < Distance(h'[a].iid, j) <= Distance(h'[a].iid, prev)
      ensures Visited(h', a, |h'|, j)
    {
      VisitedLater(h, log, a, |h|, |h'|, j);
    }
    forall a, b, j: nat | 0 <= a < b < |h'| && h'[a].Taken? && h'[b] == h'[a] && j < INST_ID_MAX && j != h'[a].iid
      ensures Visited(h', a, b, j)
    {
      VisitedLater(h, log, a, b, b, j);
    }
    forall a | 0 <= a < |h'| && h'[a].Taken? && h'[a].iid != prev
      ensures exists k :: a < k < |h'| && h'[k] == Taken(prev)
    {
      var k :| a < k < |h| && h[k] == Taken(prev);
      assert h'[k] == Taken(prev);
    }
    forall a, b | 0 <= a < b < |h'| && h'[a].Taken? && h'[b] == h'[a]
      ensures exists k :: a < k < b && h'[k].Taken? && h'[k] != h'[a]
    {
      var k :| a < k < b && h[k].Taken? && h[k] != h[a];
      assert h'[k].Taken? && h'[k] != h'[a];
    }
  }

  /** A call that scans from `prev` and takes `i` */
  lemma GrantCovers(st: EidState, h: seq<Event>, log: seq<Event>, i: nat)
    requires HistoryOk(st, h) && ScanAt(st, Granted(i), log)
    ensures i < INST_ID_MAX && i != st.prev && Distance(st.prev, i) == |log|
    ensures forall a, j: nat | 0 <= a < |h| && h[a].Taken? && j < INST_ID_MAX
              && 0 < Distance(h[a].iid, j) && (h[a].iid == i || Distance(h[a].iid, j) <= Distance(h[a].iid, i)) ::
              Visited(h + log, a, if h[a].iid == i then |h + log| - 1 else |h + log|, j)
  {
    BeforeTheGrant(st, i, log, 0);
    forall k | 0 <= k < |log| ensures log[k].iid < INST_ID_MAX && !log[k].Freed? { assert Truthful(st, log[k]); }
    forall a, j: nat | 0 <= a < |h| && h[a].Taken? && j < INST_ID_MAX
      && 0 < Distance(h[a].iid, j) && (h[a].iid == i || Distance(h[a].iid, j) <= Distance(h[a].iid, i))
      ensures Visited(h + log, a, if h[a].iid == i then |h + log| - 1 else |h + log|, j)
    {
      var from := h[a].iid;
      if Distance(from, j) <= Distance(from, st.prev) {
        VisitedLater(h, log, a, |h|, if from == i then |h + log| - 1 else |h + log|, j);
      } else {
        var k := Distance(st.prev, j) - 1;
        assert log[k].iid == j;
        VisitedNow(h, log, a, if from == i then |h + log| - 1 else |h + log|, j, k);
      }
    }
  }

  lemma GrantIsFair(st: EidState, h: seq<Event>, log: seq<Event>, i: nat)
    requires HistoryOk(st, h) && ScanAt(st, Granted(i), log)
    ensures i < INST_ID_MAX && Covered(i, h + log) && Fair(h + log)
  {
    var h' := h + log;
    GrantCovers(st, h, log, i);
    var last := |h'| - 1;
    assert h'[last] == Taken(i);
    forall a | |h| <= a < last ensures !h'[a].Taken? { assert h'[a] == log[..|log| - 1][a - |h|]; }
    forall a, j: nat | 0 <= a < |h'| && h'[a].Taken? && h'[a].iid < INST_ID_MAX && j < INST_ID_MAX
                       && 0 < Distance(h'[a].iid, j) <= Distance(h'[a].iid, i)
      ensures Visited(h', a, |h'|, j)
    {
      assert a < |h|;
    }
    forall a, b, j: nat | 0 <= a < b < |h'| && h'[a].Taken? && h'[b] == h'[a] && j < INST_ID_MAX && j != h'[a].iid
      ensures Visited(h', a, b, j)
    {
      if b < |h| {
        VisitedLater(h, log, a, b, b, j);
      } else {
        assert b == last && Distance(h[a].iid, j) > 0 && h[a].iid == i;
      }
    }
  }

  lemma GrantAlternates(st: EidState, h: seq<Event>, log: seq<Event>, i: nat)
    requires HistoryOk(st, h) && ScanAt(st, Granted(i), log) && i != st.prev
    ensures LastGrantIs(i, h + log) && Alternating(h + log)
  {
    var h' := h + log;
    var last := |h'| - 1;
    assert h'[last] == Taken(i);
    forall a | |h| <= a < last ensures !h'[a].Taken? { assert h'[a] == log[..|log| - 1][a - |h|]; }
    forall a, b | 0 <= a < b < |h'| && h'[a].Taken? && h'[b] == h'[a]
      ensures exists k :: a < k < b && h'[k].Taken? && h'[k] != h'[a]
    {
      if b < |h| {
        var k :| a < k < b && h[k].Taken? && h[k] != h[a];
        assert h'[k].Taken? && h'[k] != h'[a];
      } else {
        var k :| a < k < |h| && h[k] == Taken(st.prev);
        assert h'[k] == Taken(st.prev);
      }
    }
  }

  /** A call that succeeds */
  lemma GrantedCall(st: EidState, h: seq<Event>, log: seq<Event>, i: nat)
    requires HistoryOk(st, h) && ScanAt(st, Granted(i), log)
    ensures HistoryOk(Commit(st, Granted(i)), h + log)
  {
    GrantCovers(st, h, log, i);
    GrantIsFair(st, h, log, i);
    GrantAlternates(st, h, log, i);
    BeforeTheGrant(st, i, log, 0);
    CommitAllocates(st, Granted(i));
    var quiet := log[..|log| - 1];
    forall k | 0 <= k < |log| ensures log[k].iid < INST_ID_MAX && !log[k].Freed? { assert Truthful(st, log[k]); }
    CountQuiet(h, quiet);
    assert (h + log)[..|h + log| - 1] == h + quiet;
  }

  /** A finished call keeps the history in order */
  lemma FinishedCallIsFair(st: EidState, h: seq<Event>, rs: seq<Reply>)
    requires HistoryOk(st, h) && !Run(st, rs, |rs|).Waiting()
    ensures HistoryOk(Commit(st, Run(st, rs, |rs|)), h + Log(st, rs, |rs|))
  {
    ScanInOrder(st, rs, |rs|);
    var pt, log := Run(st, rs, |rs|), Log(st, rs, |rs|);
    if pt.Granted? {
      GrantedCall(st, h, log, pt.iid);
    } else {
      forall k | 0 <= k < |log| ensures log[k].iid < INST_ID_MAX && !log[k].Freed? { assert Truthful(st, log[k]); }
      CountQuiet(h, log);
      WithoutGrant(st.prev, h, log);
    }
  }

  /** So does a free */
  lemma FreeIsFair(st: EidState, h: seq<Event>, i: nat)
    requires HistoryOk(st, h) && i in st.Allocated()
    ensures HistoryOk(Release(st, i), h + [Freed(i)])
  {
    ReleaseRemoves(st, i);
    assert (h + [Freed(i)])[..|h|] == h;
    WithoutGrant(st.prev, h, [Freed(i)]);
  }
}
