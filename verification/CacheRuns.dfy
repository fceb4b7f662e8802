/** Whole runs of the connection list: gets, timeout changes and closes in any order. */
module CacheRuns {
  import opened Bytes
  import opened AdsH
  import opened Cache

  function Run(c: State, ops: seq<Op>): State {
    if ops == [] then c else Apply(Run(c, ops[..|ops| - 1]), ops[|ops| - 1])
  }

  predicate PossibleRun(c: State, ops: seq<Op>) {
    ops != [] ==> PossibleRun(c, ops[..|ops| - 1]) && Possible(Run(c, ops[..|ops| - 1]), ops[|ops| - 1])
  }

  /** A process that has not used the library yet; `base` are its other descriptors. */
  function Fresh(base: set<int>): State {
    State([], base, Null)
  }

  // ---------------------------------------------------------------- descriptors

  /** The descriptors of the attempts that failed in a run. */
  function Leaked(c: State, ops: seq<Op>): set<int> {
    if ops == [] then {}
    else
      var prefix, op := ops[..|ops| - 1], ops[|ops| - 1];
      Leaked(c, prefix) + if FailsToConnect(Run(c, prefix), op) then FdsOf(op.o) else {}
  }

  /** The number of attempts of a run that got a descriptor and failed. */
  function FailedAttempts(c: State, ops: seq<Op>): nat {
    if ops == [] then 0
    else
      var prefix, op := ops[..|ops| - 1], ops[|ops| - 1];
      FailedAttempts(c, prefix) + if FailsToConnect(Run(c, prefix), op) && !op.o.NoSocket? then 1 else 0
  }

  /** No two entries share the key or the descriptor. */
  predicate Distinct(entries: seq<Entry>) {
    && (forall i :: 0 <= i < |entries| ==> 0 <= entries[i].port < 0x1_0000)
    && (forall i, j :: 0 <= i < j < |entries| ==>
          entries[i].fd != entries[j].fd
            && !(entries[i].netId == entries[j].netId && entries[i].port == entries[j].port))
  }

  /** The open descriptors are the other ones, the listed ones and the leaked ones, each counted once. */
  predicate Accounted(c: State, base: set<int>, leaked: set<int>) {
    && c.open == base + Fds(c.entries) + leaked
    && base !! Fds(c.entries) && base !! leaked && Fds(c.entries) !! leaked
  }

  predicate Inv(c: State, base: set<int>, leaked: set<int>) {
    Distinct(c.entries) && Accounted(c, base, leaked) && (c.entries != [] ==> c.ptr.Allocated?)
  }

  lemma FdsAppend(entries: seq<Entry>, e: Entry)
    ensures Fds(entries + [e]) == Fds(entries) + {e.fd}
  {
  }

  lemma FdsWithTimeout(entries: seq<Entry>, nMs: int)
    ensures Fds(WithTimeout(entries, nMs)) == Fds(entries)
  {
    var w := WithTimeout(entries, nMs);
    forall f | f in Fds(entries)
      ensures f in Fds(w)
    {
      var i :| 0 <= i < |entries| && entries[i].fd == f;
      assert w[i] in w && w[i].fd == f;
    }
    forall f | f in Fds(w)
      ensures f in Fds(entries)
    {
      var i :| 0 <= i < |w| && w[i].fd == f;
      assert entries[i] in entries && entries[i].fd == f;
    }
  }

  lemma {:induction false} MissIsNewKey(entries: seq<Entry>, a: AmsAddr, fd: int)
    requires Distinct(entries) && Find(entries, a) == |entries| && fd !in Fds(entries)
    ensures Distinct(entries + [Entry(a.netId, a.port, fd, 0)])
  {
    FindIsFirst(entries, a);
    forall i | 0 <= i < |entries|
      ensures entries[i].fd != fd && !HasKey(entries[i], a)
    {
      MatchesIsKey(entries[i], a);
      assert entries[i] in entries;
    }
  }

  lemma ConnectKeepsInv(c: State, a: AmsAddr, fd: int, base: set<int>, leaked: set<int>)
    requires Inv(c, base, leaked) && Misses(c, a) && fd !in c.open
    ensures Inv(State(c.entries + [Entry(a.netId, a.port, fd, 0)], c.open + {fd}, Allocated), base, leaked)
  {
    MissIsNewKey(c.entries, a, fd);
    FdsAppend(c.entries, Entry(a.netId, a.port, fd, 0));
  }

  lemma FailureKeepsInv(c: State, fds: set<int>, base: set<int>, leaked: set<int>)
    requires Inv(c, base, leaked) && fds !! c.open
    ensures Inv(c.(open := c.open + fds), base, leaked + fds)
  {
  }

  lemma TimeoutKeepsInv(c: State, nMs: int, base: set<int>, leaked: set<int>)
    requires Inv(c, base, leaked)
    ensures Inv(c.(entries := WithTimeout(c.entries, nMs)), base, leaked)
  {
    FdsWithTimeout(c.entries, nMs);
  }

  lemma CloseKeepsInv(c: State, ptr: ListPtr, base: set<int>, leaked: set<int>)
    requires Inv(c, base, leaked)
    ensures Inv(State([], c.open - Fds(c.entries), ptr), base, leaked)
  {
    assert Fds([]) == {};
  }

  lemma GetKeepsInv(c: State, a: AmsAddr, o: Attempt, base: set<int>, leaked: set<int>)
    requires Inv(c, base, leaked) && Possible(c, Get(a, o)) && Misses(c, a)
    ensures Inv(Apply(c, Get(a, o)), base, leaked + if o.Connected? then {} else FdsOf(o))
  {
    if o.Connected? {
      ConnectKeepsInv(c, a, o.fd, base, leaked);
      assert leaked + {} == leaked;
    } else {
      FailureKeepsInv(c, FdsOf(o), base, leaked);
    }
  }

  lemma StepKeepsInv(c: State, op: Op, base: set<int>, leaked: set<int>)
    requires Inv(c, base, leaked) && Possible(c, op)
    ensures Inv(Apply(c, op), base, leaked + if FailsToConnect(c, op) then FdsOf(op.o) else {})
  {
    assert leaked + {} == leaked;
    match op {
      case Get(a, o) =>
        if Misses(c, a) {
          GetKeepsInv(c, a, o, base, leaked);
        }
      case SetTimeout(port, nMs) =>
        TimeoutKeepsInv(c, nMs, base, leaked);
      case Close =>
        CloseKeepsInv(c, if c.ptr.Null? then Null else Dangling, base, leaked);
    }
  }

  /** Every run keeps the keys and descriptors distinct and every open descriptor accounted for. */
  lemma {:induction false} RunKeepsInv(ops: seq<Op>, base: set<int>)
    requires PossibleRun(Fresh(base), ops)
    ensures Inv(Run(Fresh(base), ops), base, Leaked(Fresh(base), ops))
  {
    if ops != [] {
      var prefix := ops[..|ops| - 1];
      RunKeepsInv(prefix, base);
      StepKeepsInv(Run(Fresh(base), prefix), ops[|ops| - 1], base, Leaked(Fresh(base), prefix));
    }
  }

  lemma {:induction false} FdsSize(entries: seq<Entry>)
    requires Distinct(entries)
    ensures |Fds(entries)| == |entries|
  {
    if entries != [] {
      var n := |entries| - 1;
      assert entries == entries[..n] + [entries[n]];
      FdsSize(entries[..n]);
      FdsAppend(entries[..n], entries[n]);
      assert entries[n].fd !in Fds(entries[..n]);
    }
  }

  lemma {:induction false} LeakedSize(ops: seq<Op>, base: set<int>)
    requires PossibleRun(Fresh(base), ops)
    ensures |Leaked(Fresh(base), ops)| == FailedAttempts(Fresh(base), ops)
  {
    if ops != [] {
      var prefix := ops[..|ops| - 1];
      LeakedSize(prefix, base);
      RunKeepsInv(prefix, base);
    }
  }

  /** Descriptor conservation: listed connections plus failed attempts, on top of what was open before. */
  lemma {:induction false} DescriptorConservation(ops: seq<Op>, base: set<int>)
    requires PossibleRun(Fresh(base), ops)
    ensures var c := Run(Fresh(base), ops);
      |c.open| == |base| + |c.entries| + FailedAttempts(Fresh(base), ops)
  {
    var c := Run(Fresh(base), ops);
    RunKeepsInv(ops, base);
    FdsSize(c.entries);
    LeakedSize(ops, base);
  }

  // ---------------------------------------------------------------- refinement of a map

  type Directory = map<AmsAddr, (int, int)>

  /** The operations on a map from address to descriptor and timeout. */
  function MapApply(m: Directory, op: Op): Directory {
    match op
    case Get(a, o) => if a in m || !o.Connected? then m else m[a := (o.fd, 0)]
    case SetTimeout(port, nMs) => if port <= 0 then m else map a | a in m :: (m[a].0, ToInt32(nMs))
    case Close => map[]
  }

  function MapRun(ops: seq<Op>): Directory {
    if ops == [] then map[] else MapApply(MapRun(ops[..|ops| - 1]), ops[|ops| - 1])
  }

  predicate IsEntry(m: Directory, e: Entry) {
    0 <= e.port < 0x1_0000 && var a := AmsAddr(e.netId, e.port); a in m && m[a] == (e.fd, e.timeout)
  }

  predicate Refines(entries: seq<Entry>, m: Directory) {
    && (forall i :: 0 <= i < |entries| ==> IsEntry(m, entries[i]))
    && (forall a {:trigger Find(entries, a)} :: a in m ==> Find(entries, a) < |entries|)
  }

  /** The list finds an address exactly when the map has it, and then it finds the map's descriptor. */
  lemma {:induction false} FindIsLookup(entries: seq<Entry>, m: Directory, a: AmsAddr)
    requires Refines(entries, m)
    ensures var i := Find(entries, a);
      (i < |entries| <==> a in m) && (i < |entries| ==> m[a] == (entries[i].fd, entries[i].timeout))
  {
    var i := Find(entries, a);
    FindIsFirst(entries, a);
    if i < |entries| {
      assert IsEntry(m, entries[i]);
      MatchesIsKey(entries[i], a);
    }
  }

  lemma {:induction false} FindAppend(entries: seq<Entry>, e: Entry, a: AmsAddr)
    ensures Find(entries, a) < |entries| ==> Find(entries + [e], a) == Find(entries, a)
    ensures Matches(e, a) ==> Find(entries + [e], a) <= |entries|
  {
    if entries != [] {
      FindAppend(entries[1..], e, a);
      assert (entries + [e])[1..] == entries[1..] + [e];
    }
  }

  lemma {:induction false} FindWithTimeout(entries: seq<Entry>, nMs: int, a: AmsAddr)
    ensures Find(WithTimeout(entries, nMs), a) == Find(entries, a)
  {
    if entries != [] {
      FindWithTimeout(entries[1..], nMs, a);
      assert WithTimeout(entries, nMs)[1..] == WithTimeout(entries[1..], nMs);
    }
  }

  lemma AppendRefines(entries: seq<Entry>, m: Directory, a: AmsAddr, fd: int)
    requires Refines(entries, m) && a !in m
    ensures Refines(entries + [Entry(a.netId, a.port, fd, 0)], m[a := (fd, 0)])
  {
    var e, m' := Entry(a.netId, a.port, fd, 0), m[a := (fd, 0)];
    var es := entries + [e];
    forall i | 0 <= i < |es|
      ensures IsEntry(m', es[i])
    {
      if i < |entries| {
        assert IsEntry(m, entries[i]);
      }
    }
    forall b | b in m'
      ensures Find(es, b) < |es|
    {
      FindAppend(entries, e, b);
      if b == a {
        MatchesIsKey(e, a);
      }
    }
  }

  lemma TimeoutRefines(entries: seq<Entry>, m: Directory, port: int, nMs: int)
    requires Refines(entries, m) && port > 0
    ensures Refines(WithTimeout(entries, nMs), MapApply(m, SetTimeout(port, nMs)))
  {
    var es, m' := WithTimeout(entries, nMs), MapApply(m, SetTimeout(port, nMs));
    forall i | 0 <= i < |es|
      ensures IsEntry(m', es[i])
    {
      assert IsEntry(m, entries[i]);
    }
    forall b | b in m'
      ensures Find(es, b) < |es|
    {
      FindWithTimeout(entries, nMs, b);
    }
  }

  lemma GetRefines(c: State, m: Directory, a: AmsAddr, o: Attempt)
    requires Refines(c.entries, m)
    ensures Refines(Apply(c, Get(a, o)).entries, MapApply(m, Get(a, o)))
  {
    FindIsLookup(c.entries, m, a);
    if a !in m && o.Connected? {
      AppendRefines(c.entries, m, a, o.fd);
    }
  }

  lemma StepRefines(c: State, m: Directory, op: Op)
    requires Refines(c.entries, m)
    ensures Refines(Apply(c, op).entries, MapApply(m, op))
  {
    match op {
      case Get(a, o) =>
        GetRefines(c, m, a, o);
      case SetTimeout(port, nMs) =>
        if port > 0 {
          TimeoutRefines(c.entries, m, port, nMs);
        }
      case Close =>
    }
  }

  /** Over every run the list refines the map. */
  lemma {:induction false} CacheRefinesMap(ops: seq<Op>, base: set<int>)
    requires PossibleRun(Fresh(base), ops)
    ensures Refines(Run(Fresh(base), ops).entries, MapRun(ops))
  {
    if ops != [] {
      CacheRefinesMap(ops[..|ops| - 1], base);
      StepRefines(Run(Fresh(base), ops[..|ops| - 1]), MapRun(ops[..|ops| - 1]), ops[|ops| - 1]);
    }
  }

  // ---------------------------------------------------------------- history

  predicate IsClose(op: Op) { op.Close? }

  /** Operation number `i` makes a new connection. */
  predicate ConnectsAt(c: State, ops: seq<Op>, i: nat)
    requires i < |ops|
  {
    Connects(Run(c, ops[..i]), ops[i])
  }

  /** The timeout set last by these operations, or 0. */
  function LastTimeout(ops: seq<Op>): int {
    if ops == [] then 0
    else
      var op := ops[|ops| - 1];
      if op.SetTimeout? && op.port > 0 then ToInt32(op.nMs) else LastTimeout(ops[..|ops| - 1])
  }

  /** Operation number `i` connected the entry, and nothing has closed it since. */
  predicate BornAt(c: State, ops: seq<Op>, i: nat, e: Entry) {
    && i < |ops| && Connects(Run(c, ops[..i]), ops[i])
    && HasKey(e, ops[i].a) && ops[i].o.fd == e.fd
    && forall k :: i < k < |ops| ==> !IsClose(ops[k])
  }

  /** The timeout of every listed connection is the last one set after it was connected, or 0. */
  lemma {:induction false} TimeoutHistory(ops: seq<Op>, base: set<int>, j: nat) returns (i: nat)
    requires PossibleRun(Fresh(base), ops)
    requires j < |Run(Fresh(base), ops).entries|
    ensures var e := Run(Fresh(base), ops).entries[j];
      BornAt(Fresh(base), ops, i, e) && e.timeout == LastTimeout(ops[i + 1..])
    decreases |ops|
  {
    var n := |ops| - 1;
    var prefix, op := ops[..n], ops[n];
    var c := Run(Fresh(base), prefix);
    if Connects(c, op) && j == |c.entries| {
      i := n;
      assert ops[n + 1..] == [];
    } else {
      EntryKept(c, op, j);
      i := TimeoutHistory(prefix, base, j);
      TailGrows(ops, i);
      BornStays(ops, base, i, c.entries[j]);
    }
  }

  /**
    The connections of the list after a run, when operation number `i` made the
    connection `made[i]`: a new one goes to the end, a close drops them all.
   */
  function Objects<T>(c: State, ops: seq<Op>, made: seq<T>): seq<T>
    requires |made| == |ops|
  {
    if ops == [] then []
    else
      var n := |ops| - 1;
      var prefix := Objects(c, ops[..n], made[..n]);
      if IsClose(ops[n]) then []
      else if Connects(Run(c, ops[..n]), ops[n]) then prefix + [made[n]]
      else prefix
  }

  /** Entry number `j` belongs to the connection made by the operation it was born at. */
  lemma {:induction false} EntryIsObject<T>(ops: seq<Op>, base: set<int>, made: seq<T>, j: nat) returns (i: nat)
    requires |made| == |ops| && j < |Run(Fresh(base), ops).entries|
    ensures |Objects(Fresh(base), ops, made)| == |Run(Fresh(base), ops).entries|
    ensures BornAt(Fresh(base), ops, i, Run(Fresh(base), ops).entries[j])
    ensures Objects(Fresh(base), ops, made)[j] == made[i]
    decreases |ops|
  {
    var n := |ops| - 1;
    var prefix, op := ops[..n], ops[n];
    var c := Run(Fresh(base), prefix);
    ObjectsSize(prefix, base, made[..n]);
    if Connects(c, op) && j == |c.entries| {
      i := n;
    } else {
      i := EntryIsObject(prefix, base, made[..n], j);
      assert !IsClose(op);
      BornStays(ops, base, i, c.entries[j]);
    }
  }

  lemma {:induction false} ObjectsSize<T>(ops: seq<Op>, base: set<int>, made: seq<T>)
    requires |made| == |ops|
    ensures |Objects(Fresh(base), ops, made)| == |Run(Fresh(base), ops).entries|
    decreases |ops|
  {
    if ops != [] {
      var n := |ops| - 1;
      ObjectsSize(ops[..n], base, made[..n]);
    }
  }

  /**
    After any run a get finds a connection exactly when the map has its address,
    and then it is the very connection that was made by operation `i`, the get
    that first connected this address; nothing has been closed since.
   */
  lemma HitIsFirstConnection<T>(ops: seq<Op>, base: set<int>, a: AmsAddr, made: seq<T>) returns (i: nat)
    requires PossibleRun(Fresh(base), ops) && |made| == |ops|
    ensures var es, m, dcs := Run(Fresh(base), ops).entries, MapRun(ops), Objects(Fresh(base), ops, made);
      var f := Find(es, a);
      && (f < |es| <==> a in m)
      && (f < |es| ==> |dcs| == |es| && i < |ops| && dcs[f] == made[i] && es[f].fd == m[a].0
                       && ConnectsAt(Fresh(base), ops, i) && ops[i].a == a
                       && forall k :: i < k < |ops| ==> !IsClose(ops[k]))
  {
    i := 0;
    var es := Run(Fresh(base), ops).entries;
    CacheRefinesMap(ops, base);
    FindIsLookup(es, MapRun(ops), a);
    var f := Find(es, a);
    if f < |es| {
      FoundHasKey(es, MapRun(ops), a);
      i := EntryIsObject(ops, base, made, f);
    }
  }

  lemma {:induction false} FoundHasKey(entries: seq<Entry>, m: Directory, a: AmsAddr)
    requires Refines(entries, m) && Find(entries, a) < |entries|
    ensures HasKey(entries[Find(entries, a)], a)
  {
    FindIsFirst(entries, a);
    assert IsEntry(m, entries[Find(entries, a)]);
    MatchesIsKey(entries[Find(entries, a)], a);
  }

  lemma TailGrows(ops: seq<Op>, i: nat)
    requires i < |ops| - 1
    ensures var n := |ops| - 1; var op := ops[n];
      LastTimeout(ops[i + 1..]) ==
        if op.SetTimeout? && op.port > 0 then ToInt32(op.nMs) else LastTimeout(ops[..n][i + 1..])
  {
    var n := |ops| - 1;
    var tail := ops[i + 1..];
    assert tail[..|tail| - 1] == ops[..n][i + 1..];
  }

  lemma BornStays(ops: seq<Op>, base: set<int>, i: nat, e: Entry)
    requires ops != [] && !IsClose(ops[|ops| - 1]) && BornAt(Fresh(base), ops[..|ops| - 1], i, e)
    ensures BornAt(Fresh(base), ops, i, e)
  {
    var prefix := ops[..|ops| - 1];
    assert prefix[..i] == ops[..i];
    assert forall k :: i < k < |prefix| ==> ops[k] == prefix[k];
  }

  /** An entry that an operation did not make was there before; only its timeout may differ. */
  lemma EntryKept(c: State, op: Op, j: nat)
    requires j < |Apply(c, op).entries| && !(Connects(c, op) && j == |c.entries|)
    ensures !IsClose(op) && j < |c.entries|
    ensures var e := c.entries[j];
      Apply(c, op).entries[j] == if op.SetTimeout? && op.port > 0 then e.(timeout := ToInt32(op.nMs)) else e
  {
  }

  lemma EntryStays(c: State, op: Op, j: nat)
    requires !IsClose(op) && j < |c.entries|
    ensures var e, after := c.entries[j], Apply(c, op).entries;
      |c.entries| <= |after| && after[j].(timeout := e.timeout) == e
  {
  }

  /** As long as nothing is closed, entries keep their place, key and descriptor. */
  lemma {:induction false} EntriesStay(ops: seq<Op>, base: set<int>, n: nat, j: nat)
    requires PossibleRun(Fresh(base), ops)
    requires n <= |ops| && j < |Run(Fresh(base), ops[..n]).entries|
    requires forall k :: n <= k < |ops| ==> !IsClose(ops[k])
    ensures var before, after := Run(Fresh(base), ops[..n]).entries, Run(Fresh(base), ops).entries;
      |before| <= |after| && after[j].(timeout := before[j].timeout) == before[j]
    decreases |ops|
  {
    if n < |ops| {
      var prefix := ops[..|ops| - 1];
      assert prefix[..n] == ops[..n];
      EntriesStay(prefix, base, n, j);
      EntryStays(Run(Fresh(base), prefix), ops[|ops| - 1], j);
    } else {
      assert ops[..n] == ops;
    }
  }

  // ---------------------------------------------------------------- the list pointer

  predicate SomeConnect(c: State, ops: seq<Op>, from: nat, to: nat)
    requires to <= |ops|
  {
    exists k: nat :: from <= k < to && ConnectsAt(c, ops, k)
  }

  /** Before operation `to` something was connected, and later everything was closed. */
  predicate ClosedSince(c: State, ops: seq<Op>, to: nat)
    requires to <= |ops|
  {
    exists i: nat :: i < to && IsClose(ops[i]) && SomeConnect(c, ops, 0, i) && !SomeConnect(c, ops, i + 1, to)
  }

  /** Whether a connect happened in a stretch does not depend on what comes after. */
  lemma SomeConnectPrefix(c: State, ops: seq<Op>, from: nat, to: nat)
    requires to < |ops|
    ensures SomeConnect(c, ops, from, to) <==> SomeConnect(c, ops[..|ops| - 1], from, to)
    ensures SomeConnect(c, ops, from, to + 1)
      <==> SomeConnect(c, ops, from, to) || (from <= to && ConnectsAt(c, ops, to))
  {
    var prefix := ops[..|ops| - 1];
    assert forall k: nat :: k < to ==> prefix[..k] == ops[..k];
    assert forall k: nat :: k < to ==> (ConnectsAt(c, ops, k) <==> ConnectsAt(c, prefix, k));
  }

  /** The last operation is a close. */
  lemma ClosedByLast(c: State, ops: seq<Op>)
    requires ops != [] && IsClose(ops[|ops| - 1])
    ensures ClosedSince(c, ops, |ops|) <==> SomeConnect(c, ops, 0, |ops| - 1)
  {
    var n := |ops| - 1;
    if ClosedSince(c, ops, |ops|) {
      var i: nat :| i < |ops| && IsClose(ops[i]) && SomeConnect(c, ops, 0, i) && !SomeConnect(c, ops, i + 1, |ops|);
      EarlierConnect(c, ops, i, n);
    }
    if SomeConnect(c, ops, 0, n) {
      assert !SomeConnect(c, ops, n + 1, |ops|);
    }
  }

  /** The last operation is not a close. */
  lemma ClosedBefore(c: State, ops: seq<Op>)
    requires ops != [] && !IsClose(ops[|ops| - 1]) && ClosedSince(c, ops, |ops|)
    ensures ClosedSince(c, ops[..|ops| - 1], |ops| - 1) && !ConnectsAt(c, ops, |ops| - 1)
  {
    var n := |ops| - 1;
    var i: nat :| i < |ops| && IsClose(ops[i]) && SomeConnect(c, ops, 0, i) && !SomeConnect(c, ops, i + 1, |ops|);
    SomeConnectPrefix(c, ops, 0, i);
    SomeConnectPrefix(c, ops, i + 1, n);
    assert IsClose(ops[..n][i]);
  }

  lemma ClosedStill(c: State, ops: seq<Op>)
    requires ops != [] && ClosedSince(c, ops[..|ops| - 1], |ops| - 1) && !ConnectsAt(c, ops, |ops| - 1)
    ensures ClosedSince(c, ops, |ops|)
  {
    var n := |ops| - 1;
    var prefix := ops[..n];
    var i: nat :| i < n && IsClose(prefix[i]) && SomeConnect(c, prefix, 0, i) && !SomeConnect(c, prefix, i + 1, n);
    SomeConnectPrefix(c, ops, 0, i);
    SomeConnectPrefix(c, ops, i + 1, n);
    assert IsClose(ops[i]);
  }

  lemma ClosedSincePrefix(c: State, ops: seq<Op>)
    requires ops != []
    ensures var n := |ops| - 1;
      ClosedSince(c, ops, |ops|) <==>
        if IsClose(ops[n]) then SomeConnect(c, ops, 0, n)
        else ClosedSince(c, ops[..n], n) && !ConnectsAt(c, ops, n)
  {
    var n := |ops| - 1;
    if IsClose(ops[n]) {
      ClosedByLast(c, ops);
    } else if ClosedSince(c, ops, |ops|) {
      ClosedBefore(c, ops);
    } else if ClosedSince(c, ops[..n], n) && !ConnectsAt(c, ops, n) {
      ClosedStill(c, ops);
    }
  }

  lemma EarlierConnect(c: State, ops: seq<Op>, i: nat, n: nat)
    requires i <= n <= |ops| && SomeConnect(c, ops, 0, i)
    ensures SomeConnect(c, ops, 0, n)
  {
  }

  /** What the list pointer points to, from the history alone. */
  lemma {:induction false} PointerHistory(ops: seq<Op>, base: set<int>)
    ensures var p := Run(Fresh(base), ops).ptr;
      && (p.Null? <==> !SomeConnect(Fresh(base), ops, 0, |ops|))
      && (p.Dangling? <==> ClosedSince(Fresh(base), ops, |ops|))
  {
    var c := Fresh(base);
    if ops != [] {
      var n := |ops| - 1;
      PointerHistory(ops[..n], base);
      SomeConnectPrefix(c, ops, 0, n);
      ClosedSincePrefix(c, ops);
    }
  }

  /**
    A close would free the array a second time, and is not possible, exactly when
    something was connected before an earlier close and nothing has been connected
    since that close.
   */
  lemma DoubleFreeIff(ops: seq<Op>, base: set<int>, j: nat)
    requires j < |ops| && IsClose(ops[j])
    ensures !Possible(Run(Fresh(base), ops[..j]), ops[j]) <==>
      exists i: nat :: i < j && IsClose(ops[i]) && SomeConnect(Fresh(base), ops, 0, i)
        && !SomeConnect(Fresh(base), ops, i + 1, j)
  {
    PointerHistory(ops[..j], base);
    ClosedSinceTake(Fresh(base), ops, j);
  }

  lemma ClosedSinceTake(c: State, ops: seq<Op>, j: nat)
    requires j <= |ops|
    ensures ClosedSince(c, ops[..j], j) <==> ClosedSince(c, ops, j)
  {
    var take := ops[..j];
    assert forall k: nat :: k < j ==> take[..k] == ops[..k];
    assert forall k: nat :: k < j ==> (ConnectsAt(c, ops, k) <==> ConnectsAt(c, take, k));
    assert forall from: nat, to: nat :: to <= j ==> (SomeConnect(c, ops, from, to) <==> SomeConnect(c, take, from, to));
    assert forall i: nat :: i < j ==> (IsClose(take[i]) <==> IsClose(ops[i]));
  }

  // ---------------------------------------------------------------- inputs that show it

  /** A connect that fails leaves its descriptor open, and a close does not close it. */
  lemma FailedConnectLeaks(a: AmsAddr, fd: int, errno: int, base: set<int>)
    requires fd !in base
    ensures var ops := [Get(a, ConnectFailed(fd, errno)), Close];
      PossibleRun(Fresh(base), ops) && Run(Fresh(base), ops) == State([], base + {fd}, Null)
  {
    var op := Get(a, ConnectFailed(fd, errno));
    RunOne(Fresh(base), op);
    RunTwo(Fresh(base), op, Close);
    assert base + {fd} - Fds([]) == base + {fd};
  }

  /** Connecting once and closing twice frees the list twice. */
  lemma ClosedTwice(a: AmsAddr, fd: int, base: set<int>)
    requires fd !in base
    ensures var ops := [Get(a, Connected(fd)), Close, Close];
      && PossibleRun(Fresh(base), ops[..2])
      && Run(Fresh(base), ops[..2]).ptr.Dangling? && !Possible(Run(Fresh(base), ops[..2]), ops[2])
  {
    var op := Get(a, Connected(fd));
    RunOne(Fresh(base), op);
    RunTwo(Fresh(base), op, Close);
    assert [op, Close, Close][..2] == [op, Close];
  }

  lemma {:induction false} RunOne(c: State, op: Op)
    ensures Run(c, [op]) == Apply(c, op)
    ensures PossibleRun(c, [op]) <==> Possible(c, op)
  {
    assert [op][..0] == [];
  }

  lemma {:induction false} RunTwo(c: State, op: Op, next: Op)
    ensures Run(c, [op, next]) == Apply(Run(c, [op]), next)
    ensures PossibleRun(c, [op, next]) <==> PossibleRun(c, [op]) && Possible(Run(c, [op]), next)
  {
    assert [op, next][..1] == [op];
  }
}
