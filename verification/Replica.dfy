// The replicated state machine: fsm.Apply, and what every run of commits,
// applies and snapshots does to the logs of the nodes.
module Replica {
  import opened Bytes
  import opened Wrappers
  import opened Codec
  import opened Framing
  import opened LogSpec
  import opened LogTheorems
  import opened Restoring

  const APPEND_REQUEST: byte := 0

  datatype Response = Produced(offset: nat) | Failed(error: Error) | Ignored

  /** What DistributedLog.apply submits to raft for an append. */
  function Command(r: Record): bytes
    requires |Marshal(r)| < 0x8000_0000
  {
    [APPEND_REQUEST] + MarshalRequest(r)
  }

  /** A command Apply survives: not empty, and an append request names a record. */
  predicate ValidCommand(data: bytes) {
    data != [] && (data[0] == APPEND_REQUEST ==> UnmarshalRequest(data[1..]) != Ok(None))
  }

  function Apply(log: LogState, data: bytes): (LogState, Response)
    requires log.segments != [] && Next(log) + 1 < TWO_64 && ValidCommand(data)
  {
    if data[0] != APPEND_REQUEST then (log, Ignored)
    else match UnmarshalRequest(data[1..])
      case Err(e) => (log, Failed(e))
      case Ok(Some(r)) => (LogSpec.Append(log, r), Produced(Next(log)))
  }

  /** The record a command appends, if any. */
  function Decoded(data: bytes): seq<Record> {
    if data == [] || data[0] != APPEND_REQUEST then []
    else match UnmarshalRequest(data[1..])
      case Ok(Some(r)) => [r]
      case _ => []
  }

  function Decode(commands: seq<bytes>): (rs: seq<Record>)
    ensures |rs| <= |commands|
  {
    if commands == [] then []
    else Decode(commands[..|commands| - 1]) + Decoded(commands[|commands| - 1])
  }

  lemma {:induction false} CommandDecoded(r: Record)
    requires |Marshal(r)| < 0x8000_0000
    ensures ValidCommand(Command(r)) && Decoded(Command(r)) == [r]
    ensures Command(r) == [0x00, 0x0A] + PutVarint(|Marshal(r)|) + Marshal(r)
  {
    hide Marshal, UnmarshalRequest, PutVarint;
    UnmarshalMarshalRequest(r);
    RequestBytes(r);
    assert Command(r)[1..] == MarshalRequest(r);
  }

  /** A command of another type changes nothing and is not answered; one that does
      not decode changes nothing and is answered with the error; the command of a
      record appends it and is answered with its offset. */
  lemma {:induction false} ApplyCases(log: LogState, data: bytes, r: Record)
    requires log.segments != [] && Next(log) + 1 < TWO_64 && data != [] && |Marshal(r)| < 0x8000_0000
    ensures data[0] != 0 ==> ValidCommand(data) && Apply(log, data) == (log, Ignored)
    ensures data[0] == 0 && UnmarshalRequest(data[1..]).Err? ==>
              ValidCommand(data) && Apply(log, data) == (log, Failed(UnmarshalRequest(data[1..]).error))
    ensures data == [0x00, 0x0A] + PutVarint(|Marshal(r)|) + Marshal(r) ==>
              ValidCommand(data) && Apply(log, data) == (LogSpec.Append(log, r), Produced(Next(log)))
  {
    hide LogSpec.Append, UnmarshalRequest, Marshal;
    CommandDecoded(r);
    if data == Command(r) {
      UnmarshalMarshalRequest(r);
      assert data[1..] == MarshalRequest(r);
    }
  }

  // ---------- the cluster

  /** The last snapshot a node has installed: the index it covers and the records in
      its stream; (0, []) at first. */
  datatype Origin = Origin(index: nat, records: seq<Record>)

  /** A node; it is broken once a restore has failed and left its log without files. */
  datatype Node = Running(log: LogState, applied: nat, from: Origin) | Broken

  /** A snapshot covers the first `index` commands; its stream was read while
      the node went on applying. */
  datatype Saved = Saved(index: nat, stream: bytes)

  datatype Cluster = Cluster(initial: nat, committed: seq<bytes>, nodes: seq<Node>, saved: seq<Saved>)

  datatype Step =
    | Commit(data: bytes)
    | ApplyNext(node: nat)
    | Persist(node: nat, index: nat, count: nat) // finish the snapshot taken at `index` with `count` records
    | Install(snapshot: nat, node: nat, repaired: bool) // restore it, as written or with the intended Reset

  /** The first `n` committed commands make these records, at offsets from `initial` on. */
  function Records(c: Cluster, n: nat): seq<Record>
    requires n <= |c.committed| && c.initial + |c.committed| < TWO_64
  {
    Restamp(Decode(c.committed[..n]), c.initial)
  }

  /** What the commands after the origin's index, up to the `n`th, append. */
  function Since(c: Cluster, from: Origin, n: nat): seq<Record>
    requires from.index <= n <= |c.committed|
  {
    Decode(c.committed[from.index..n])
  }

  /** The number of records a node with this origin holds after the `n`th command. */
  function Count(c: Cluster, from: Origin, n: nat): nat
    requires from.index <= n <= |c.committed|
  {
    |from.records| + |Since(c, from, n)|
  }

  /** The records it holds: those of the stream, then those appended since. */
  function Held(c: Cluster, from: Origin, n: nat): (rs: seq<Record>)
    requires from.index <= n <= |c.committed| && c.initial + Count(c, from, n) < TWO_64
    ensures |rs| == Count(c, from, n)
  {
    from.records + Restamp(Since(c, from, n), c.initial + |from.records|)
  }

  /** The stream was a contiguous log from `initial` on, empty only if the commands
      it covers append nothing. */
  predicate OriginOk(c: Cluster, from: Origin) {
    && from.index <= |c.committed|
    && (forall k :: 0 <= k < |from.records| ==> from.records[k].offset == c.initial + k)
    && (from.records == [] ==> Decode(c.committed[..from.index]) == [])
  }

  /** The stream held the records of the commands up to its index and no others. */
  predicate Faithful(c: Cluster, from: Origin)
    requires c.initial + |c.committed| < TWO_64
  {
    from.index <= |c.committed| && from.records == Records(c, from.index)
  }

  /** What is true of a node after any run, whatever the snapshots held. */
  ghost predicate NodeHolds(c: Cluster, n: Node) {
    n.Running? ==>
      && n.from.index <= n.applied <= |c.committed| && OriginOk(c, n.from)
      && Good(n.log) && Lowest(n.log) == c.initial
      && Next(n.log) == c.initial + Count(c, n.from, n.applied)
      && Contents(n.log) == Held(c, n.from, n.applied)
  }

  ghost predicate SavedHolds(c: Cluster, s: Saved) {
    var rs := Parse(s.stream).records;
    s.stream == Print(rs) && c.initial + |rs| < TWO_64 && OriginOk(c, Origin(s.index, rs))
  }

  ghost predicate Holding(c: Cluster) {
    && c.initial + |c.committed| + 1 < TWO_64
    && (forall k :: 0 <= k < |c.committed| ==> ValidCommand(c.committed[k]))
    && (forall i :: 0 <= i < |c.nodes| ==> NodeHolds(c, c.nodes[i]))
    && (forall i :: 0 <= i < |c.saved| ==> SavedHolds(c, c.saved[i]))
  }

  /** All running nodes and all snapshots hold what the committed commands say. */
  ghost predicate Sound(c: Cluster) {
    && Holding(c)
    && (forall i :: 0 <= i < |c.nodes| && c.nodes[i].Running? ==> Faithful(c, c.nodes[i].from))
    && (forall i :: 0 <= i < |c.saved| ==> Faithful(c, Origin(c.saved[i].index, Parse(c.saved[i].stream).records)))
  }

  function FirstNode(limits: Limits, initial: nat): Node {
    Running(Fresh(limits, initial), 0, Origin(0, []))
  }

  /** Before any command is committed, fresh nodes of any segment limits are sound. */
  lemma {:induction false} StartSound(initial: nat, limits: seq<Limits>)
    requires initial + 1 < TWO_64 && forall i :: 0 <= i < |limits| ==> GoodLimits(limits[i])
    ensures Sound(Cluster(initial, [],
            seq(|limits|, i requires 0 <= i < |limits| => FirstNode(limits[i], initial)), []))
  {
    hide Good, Fresh;
    forall l | GoodLimits(l)
      ensures Good(Fresh(l, initial)) && Lowest(Fresh(l, initial)) == initial == Next(Fresh(l, initial))
      ensures Contents(Fresh(l, initial)) == []
    {
      FreshGood(l, initial);
    }
  }

  /** What raft permits, as long as no offset overflows; the snapshot reader saw at
      least the records its node held when it was taken, and at most those it holds
      now, and the node has installed no other snapshot in between. */
  predicate Permitted(c: Cluster, step: Step) {
    match step
    case Commit(data) => ValidCommand(data) && c.initial + |c.committed| + 2 < TWO_64
    case ApplyNext(i) =>
      && i < |c.nodes| && c.nodes[i].Running? && c.nodes[i].applied < |c.committed|
      && c.nodes[i].log.segments != [] && Next(c.nodes[i].log) + 1 < TWO_64
    case Persist(i, index, count) =>
      && i < |c.nodes| && c.nodes[i].Running?
      && c.nodes[i].from.index <= index <= c.nodes[i].applied && index <= |c.committed|
      && Count(c, c.nodes[i].from, index) <= count <= |Contents(c.nodes[i].log)|
    case Install(s, i, _) =>
      && s < |c.saved| && i < |c.nodes| && c.nodes[i].Running? && c.nodes[i].applied <= c.saved[s].index
  }

  /** What raft permits and the functions of the step need to be defined. */
  ghost predicate Enabled(c: Cluster, step: Step) {
    && Permitted(c, step)
    && match step
       case Commit(_) => true
       case ApplyNext(i) => Good(c.nodes[i].log) && ValidCommand(c.committed[c.nodes[i].applied])
       case Persist(i, _, _) => true
       case Install(s, i, _) => GoodLimits(c.nodes[i].log.limits) && Fits(c.saved[s].stream)
  }

  /** In a reachable cluster the second part excludes nothing that raft permits. */
  lemma {:induction false} GuardsHold(c: Cluster, step: Step)
    requires Holding(c)
    ensures Enabled(c, step) <==> Permitted(c, step)
  {
    hide Good, Contents, Decode, Print, Parse, ValidCommand, Held;
    match step {
      case Install(s, i, _) =>
        if Permitted(c, step) {
          assert SavedHolds(c, c.saved[s]);
        }
      case _ =>
    }
  }

  /** Restoring a snapshot: nothing happens without a record; as written, the Reset
      of the first record fails and takes the files with it. */
  ghost function Installed(n: Node, s: Saved, repaired: bool): Node
    requires n.Running? && GoodLimits(n.log.limits) && Fits(s.stream)
  {
    var rs := Parse(s.stream).records;
    if rs == [] then Running(Restore(n.log, s.stream), s.index, n.from)
    else if repaired then Running(Restore(n.log, s.stream), s.index, Origin(s.index, rs))
    else Broken
  }

  ghost function Do(c: Cluster, step: Step): Cluster
    requires Enabled(c, step)
  {
    match step
    case Commit(data) => c.(committed := c.committed + [data])
    case ApplyNext(i) =>
      var n := c.nodes[i];
      c.(nodes := c.nodes[i := Running(Apply(n.log, c.committed[n.applied]).0, n.applied + 1, n.from)])
    case Persist(i, index, count) =>
      c.(saved := c.saved + [Saved(index, Print(Contents(c.nodes[i].log)[..count]))])
    case Install(s, i, repaired) =>
      c.(nodes := c.nodes[i := Installed(c.nodes[i], c.saved[s], repaired)])
  }

  /** The snapshot holds no record of a command after its index. */
  predicate Exact(c: Cluster, step: Step) {
    step.Persist? && step.index <= |c.committed| ==> step.count == |Decode(c.committed[..step.index])|
  }

  // ---------- records and commands

  lemma {:induction false} RestampConcat(a: seq<Record>, b: seq<Record>, first: nat)
    requires first + |a| + |b| < TWO_64
    ensures Restamp(a + b, first) == Restamp(a, first) + Restamp(b, first + |a|)
  {
  }

  /** The records of the first `m` commands are those of the first `n` and those of the rest. */
  lemma {:induction false} RecordsSplit(c: Cluster, n: nat, m: nat)
    requires n <= m <= |c.committed| && c.initial + |c.committed| < TWO_64
    ensures Decode(c.committed[..m]) == Decode(c.committed[..n]) + Decode(c.committed[n..m])
    ensures |Records(c, n)| == |Decode(c.committed[..n])|
    ensures Records(c, m) == Records(c, n) + Restamp(Decode(c.committed[n..m]), c.initial + |Records(c, n)|)
  {
    hide Decode;
    DecodeSplit(c.committed[..m], n);
    assert c.committed[..m][..n] == c.committed[..n] && c.committed[..m][n..] == c.committed[n..m];
    RestampConcat(Decode(c.committed[..n]), Decode(c.committed[n..m]), c.initial);
  }

  /** A node holds what the committed commands say exactly when the last snapshot it
      installed held that of the commands up to its index, and no more. */
  lemma {:induction false} SoundIff(c: Cluster, n: Node)
    requires c.initial + |c.committed| < TWO_64 && n.Running? && NodeHolds(c, n)
    ensures Contents(n.log) == Records(c, n.applied) <==> Faithful(c, n.from)
  {
    hide Good, Contents, Decode;
    RecordsSplit(c, n.from.index, n.applied);
    var rs, since := n.from.records, Restamp(Since(c, n.from, n.applied), c.initial + |n.from.records|);
    if Contents(n.log) == Records(c, n.applied) {
      assert |rs| == |Records(c, n.from.index)|;
      assert (rs + since)[..|rs|] == rs;
    }
  }

  /** The stream a faithful node persists is faithful exactly when it stops at the
      records of the commands up to its index. */
  lemma {:induction false} PersistFaithfulIff(c: Cluster, n: Node, index: nat, count: nat)
    requires c.initial + |c.committed| < TWO_64 && n.Running? && NodeHolds(c, n) && Faithful(c, n.from)
    requires index <= n.applied && count <= |Contents(n.log)|
    ensures Faithful(c, Origin(index, Contents(n.log)[..count])) <==> count == |Decode(c.committed[..index])|
  {
    hide Good, Contents, Decode, Held;
    SoundIff(c, n);
    RecordsSplit(c, index, n.applied);
    assert Contents(n.log)[..|Records(c, index)|] == Records(c, index);
  }

  // ---------- one step, whatever the snapshots held

  /** The response of a node with this origin to command `k`. */
  function Answer(c: Cluster, from: Origin, k: nat): Response
    requires from.index <= k < |c.committed| && ValidCommand(c.committed[k])
  {
    var data := c.committed[k];
    if data[0] != APPEND_REQUEST then Ignored
    else match UnmarshalRequest(data[1..])
      case Err(e) => Failed(e)
      case Ok(_) => Produced(c.initial + Count(c, from, k))
  }

  /** Applying the next command yields the response that the committed commands and
      the origin determine, and keeps the log that of the origin and the commands since. */
  lemma {:induction false} ApplyHolds(c: Cluster, n: Node)
    requires n.Running? && NodeHolds(c, n) && n.applied < |c.committed|
    requires Next(n.log) + 1 < TWO_64 && ValidCommand(c.committed[n.applied])
    ensures var (log, response) := Apply(n.log, c.committed[n.applied]);
            && NodeHolds(c, Running(log, n.applied + 1, n.from))
            && response == Answer(c, n.from, n.applied)
            && (response.Produced? <==> Decoded(c.committed[n.applied]) != [])
  {
    hide Good, Contents, LogSpec.Append, UnmarshalRequest, Held, Since, Print;
    ContentsContiguous(n.log);
    HeldNext(c, n.from, n.applied);
    var made := Decoded(c.committed[n.applied]);
    if made != [] {
      AppendAdds(n.log, made[0]);
      assert Restamp(made, Next(n.log)) == [Stamp(made[0], Next(n.log))];
    } else {
      Regroup(Contents(n.log), [], []);
      assert Restamp(made, Next(n.log)) == [];
    }
  }

  lemma {:induction false} HeldNext(c: Cluster, from: Origin, n: nat)
    requires from.index <= n < |c.committed| && c.initial + Count(c, from, n) + 1 < TWO_64
    ensures var made := Decoded(c.committed[n]);
            && Count(c, from, n + 1) == Count(c, from, n) + |made| && |made| <= 1
            && Held(c, from, n + 1) == Held(c, from, n) + Restamp(made, c.initial + Count(c, from, n))
  {
    hide Since, Held, Decode, Decoded, Restamp;
    SinceNext(c, from, n);
    AtMostOne(c.committed[n]);
    HeldMore(c, c, from, n, n + 1);
    assert c.committed[n..n + 1] == [c.committed[n]];
    DecodeOne(c.committed[n]);
  }

  lemma {:induction false} AtMostOne(data: bytes)
    ensures |Decoded(data)| <= 1
  {
  }

  lemma {:induction false} SinceNext(c: Cluster, from: Origin, n: nat)
    requires from.index <= n < |c.committed|
    ensures Since(c, from, n + 1) == Since(c, from, n) + Decoded(c.committed[n])
  {
    hide Decoded;
    var before, commands := c.committed[from.index..n], c.committed[from.index..n + 1];
    assert |commands| == |before| + 1 && commands[..|before|] == before && commands[|before|] == c.committed[n];
  }

  /** Where the commands up to `m` append nothing, those of any part of them do not. */
  lemma {:induction false} NothingSince(c: Cluster, n: nat, m: nat)
    requires n <= m <= |c.committed| && Decode(c.committed[..m]) == []
    ensures Decode(c.committed[n..m]) == [] && Decode(c.committed[..n]) == []
  {
    hide Decode;
    DecodeSplit(c.committed[..m], n);
    assert c.committed[..m][..n] == c.committed[..n] && c.committed[..m][n..] == c.committed[n..m];
  }

  /** With the intended Reset, a node that installs a snapshot with a record holds
      its stream; without a record it holds what it held.  As written, the node
      survives exactly the snapshots without a record. */
  lemma {:induction false} InstallHolds(c: Cluster, n: Node, s: Saved, repaired: bool)
    requires n.Running? && NodeHolds(c, n) && SavedHolds(c, s) && n.applied <= s.index && Fits(s.stream)
    ensures var n', rs := Installed(n, s, repaired), Parse(s.stream).records;
            && NodeHolds(c, n')
            && (n'.Running? <==> repaired || rs == [])
            && (n'.Running? ==> n'.applied == s.index && n'.from == if rs == [] then n.from else Origin(s.index, rs))
            && (n'.Running? && rs != [] ==> Contents(n'.log) == rs)
  {
    hide Good, Contents, Print, Parse, Restore, Decode;
    var rs := Parse(s.stream).records;
    if rs == [] {
      RestoreNothing(n.log);
      NothingSince(c, n.applied, s.index);
      NothingSince(c, n.from.index, n.applied);
      NothingSince(c, n.from.index, s.index);
    } else if repaired {
      RestorePrinted(n.log, rs, c.initial);
      ContentsContiguous(Restore(n.log, s.stream));
      NothingAtOnce(c, Origin(s.index, rs));
    }
  }

  lemma {:induction false} NothingAtOnce(c: Cluster, from: Origin)
    requires from.index <= |c.committed| && c.initial + |from.records| < TWO_64
    ensures Since(c, from, from.index) == [] && Held(c, from, from.index) == from.records
  {
    assert c.committed[from.index..from.index] == [];
  }

  lemma {:induction false} RestoreNothing(log: LogState)
    requires GoodLimits(log.limits)
    ensures Fits(Print([])) && Restore(log, Print([])) == log
  {
    assert Print([]) == [];
  }

  lemma {:induction false} PersistHolds(c: Cluster, n: Node, index: nat, count: nat)
    requires n.Running? && NodeHolds(c, n) && n.from.index <= index <= n.applied
    requires Count(c, n.from, index) <= count <= |Contents(n.log)|
    ensures var rs := Contents(n.log)[..count];
            Parse(Print(rs)).records == rs && SavedHolds(c, Saved(index, Print(rs)))
  {
    hide Contents, Print, Parse, Decode, Good;
    var rs := Contents(n.log)[..count];
    ParsePrint(rs);
    ContentsContiguous(n.log);
    if rs == [] {
      DecodeSplit(c.committed[..index], n.from.index);
      assert c.committed[..index][..n.from.index] == c.committed[..n.from.index];
      assert c.committed[..index][n.from.index..] == c.committed[n.from.index..index];
    }
  }

  lemma {:induction false} StepHolds(c: Cluster, step: Step)
    requires Holding(c) && Enabled(c, step)
    ensures Holding(Do(c, step))
  {
    hide NodeHolds, SavedHolds, Apply, Restore, Installed, Contents, Decode, Count, ValidCommand, Good, Fits;
    hide OriginOk, Held, Parse, Print;
    match step {
      case Commit(data) => CommitHolds(c, data);
      case ApplyNext(i) =>
        NodeAt(c, i);
        ApplyHolds(c, c.nodes[i]);
        NodesFrame(c, Do(c, step));
      case Persist(i, index, count) =>
        PersistHolds(c, c.nodes[i], index, count);
        NodesFrame(c, Do(c, step));
      case Install(s, i, repaired) =>
        InstallHolds(c, c.nodes[i], c.saved[s], repaired);
        NodesFrame(c, Do(c, step));
    }
  }

  lemma {:induction false} NodeAt(c: Cluster, i: nat)
    requires Holding(c) && i < |c.nodes| && c.nodes[i].Running?
    ensures NodeHolds(c, c.nodes[i]) && Good(c.nodes[i].log)
  {
    hide Good, Contents, Decode, Held;
  }

  lemma {:induction false} CommitHolds(c: Cluster, data: bytes)
    requires Holding(c) && Enabled(c, Commit(data))
    ensures Holding(Do(c, Commit(data)))
  {
    hide Contents, Decode, ValidCommand, Good, Print, Parse;
    var d := Do(c, Commit(data));
    forall i | 0 <= i < |c.nodes|
      ensures NodeHolds(d, c.nodes[i])
    {
      assert NodeHolds(c, c.nodes[i]);
      if c.nodes[i].Running? {
        var n := c.nodes[i];
        assert d.committed[n.from.index..n.applied] == c.committed[n.from.index..n.applied];
        assert d.committed[..n.from.index] == c.committed[..n.from.index];
      }
    }
    forall i | 0 <= i < |c.saved|
      ensures SavedHolds(d, c.saved[i])
    {
      assert SavedHolds(c, c.saved[i]);
      assert d.committed[..c.saved[i].index] == c.committed[..c.saved[i].index];
    }
  }

  /** What a node or a snapshot must satisfy depends only on the committed commands. */
  lemma {:induction false} NodesFrame(c: Cluster, d: Cluster)
    requires c.initial == d.initial && c.committed == d.committed
    ensures forall n :: NodeHolds(c, n) <==> NodeHolds(d, n)
    ensures forall s :: SavedHolds(c, s) <==> SavedHolds(d, s)
    ensures c.initial + |c.committed| < TWO_64 ==> forall from :: Faithful(c, from) <==> Faithful(d, from)
  {
    hide Contents, Decode, Good, Print, Parse;
  }

  // ---------- one step with an exact snapshot

  /** A step keeps a cluster sound exactly when it saves no snapshot that ran ahead. */
  lemma {:induction false} StepOk(c: Cluster, step: Step)
    requires Sound(c) && Enabled(c, step)
    ensures Exact(c, step) ==> Sound(Do(c, step))
    ensures !Exact(c, step) ==> |Do(c, step).saved| > |c.saved| && Ahead(Do(c, step), |c.saved|)
  {
    hide NodeHolds, SavedHolds, Faithful, Apply, Restore, Installed, Contents, Decode, Count, ValidCommand, Good, Fits;
    hide OriginOk, Held, Records, Parse, Print;
    StepHolds(c, step);
    match step {
      case Commit(data) => CommitFaithful(c, data);
      case ApplyNext(i) => NodesFrame(c, Do(c, step));
      case Persist(i, index, count) =>
        PersistHolds(c, c.nodes[i], index, count);
        PersistFaithfulIff(c, c.nodes[i], index, count);
        NodesFrame(c, Do(c, step));
        assert Do(c, step).saved[|c.saved|] == Saved(index, Print(Contents(c.nodes[i].log)[..count]));
      case Install(s, i, repaired) =>
        InstallHolds(c, c.nodes[i], c.saved[s], repaired);
        NodesFrame(c, Do(c, step));
    }
  }

  /** Snapshot `k` is not what the commands up to its index say. */
  predicate Ahead(c: Cluster, k: nat)
    requires k < |c.saved|
  {
    c.initial + |c.committed| < TWO_64 && !Faithful(c, Origin(c.saved[k].index, Parse(c.saved[k].stream).records))
  }

  /** Such a snapshot stays, and stays wrong. */
  lemma {:induction false} AheadStays(c: Cluster, steps: seq<Step>, k: nat)
    requires Holding(c) && Legal(c, steps) && k < |c.saved| && Ahead(c, k)
    ensures !Sound(Run(c, steps))
  {
    hide Legal, Run, NodeHolds, Parse, Print, Decode, ValidCommand, Committed, Persists;
    RunCommits(c, steps);
    RunHolds(c, steps);
    var d, s := Run(c, steps), c.saved[k];
    assert SavedHolds(c, s) && d.saved[k] == s;
    assert d.committed[..s.index] == c.committed[..s.index];
  }

  lemma {:induction false} CommitFaithful(c: Cluster, data: bytes)
    requires c.initial + |c.committed| + 1 < TWO_64
    ensures forall from :: Faithful(c, from) ==> Faithful(c.(committed := c.committed + [data]), from)
  {
    hide Decode;
    forall from: Origin | Faithful(c, from)
      ensures Faithful(c.(committed := c.committed + [data]), from)
    {
      assert (c.committed + [data])[..from.index] == c.committed[..from.index];
    }
  }

  // ---------- whole runs

  ghost predicate Legal(c: Cluster, steps: seq<Step>)
    decreases |steps|
  {
    steps == [] || (Enabled(c, steps[0]) && Legal(Do(c, steps[0]), steps[1..]))
  }

  ghost function Run(c: Cluster, steps: seq<Step>): Cluster
    requires Legal(c, steps)
    decreases |steps|
  {
    if steps == [] then c else Run(Do(c, steps[0]), steps[1..])
  }

  /** No snapshot of the run holds a record of a command after its index. */
  ghost predicate AllExact(c: Cluster, steps: seq<Step>)
    requires Legal(c, steps)
    decreases |steps|
  {
    steps == [] || (Exact(c, steps[0]) && AllExact(Do(c, steps[0]), steps[1..]))
  }

  lemma {:induction false} RunHolds(c: Cluster, steps: seq<Step>)
    requires Holding(c) && Legal(c, steps)
    ensures Holding(Run(c, steps))
    decreases |steps|
  {
    hide Holding, Do, Enabled;
    if steps != [] {
      StepHolds(c, steps[0]);
      RunHolds(Do(c, steps[0]), steps[1..]);
    }
  }

  /** A run keeps a cluster sound exactly when every snapshot it saves is exact. */
  lemma {:induction false} RunOk(c: Cluster, steps: seq<Step>)
    requires Sound(c) && Legal(c, steps)
    ensures Sound(Run(c, steps)) <==> AllExact(c, steps)
    decreases |steps|
  {
    hide Sound, Do, Enabled, Exact, Ahead, Holding;
    if steps != [] {
      StepOk(c, steps[0]);
      if Exact(c, steps[0]) {
        RunOk(Do(c, steps[0]), steps[1..]);
      } else {
        SoundHolds(c);
        StepHolds(c, steps[0]);
        AheadStays(Do(c, steps[0]), steps[1..], |c.saved|);
      }
    }
  }

  lemma {:induction false} SoundHolds(c: Cluster)
    requires Sound(c)
    ensures Holding(c)
  {
  }

  /** Replica safety: after any run, whatever the segment limits of each node and
      whatever its snapshots held, a running node holds the stream it last installed
      and the records of the commands since.  That is what the committed commands
      say exactly when that stream held no record beyond its index; then a read on
      the node gives the record the committed commands put at that offset, or says
      that the node has none to give.  In a run of exact snapshots it always is. */
  lemma {:induction false} ReplicaSafety(c: Cluster, steps: seq<Step>, i: nat, off: nat, strict: bool)
    requires Holding(c) && Legal(c, steps) && i < |Run(c, steps).nodes| && Run(c, steps).nodes[i].Running?
    ensures var d := Run(c, steps);
            var n := d.nodes[i];
            && d.initial + |d.committed| < TWO_64 && NodeHolds(d, n)
            && (Contents(n.log) == Records(d, n.applied) <==> Faithful(d, n.from))
            && (Faithful(d, n.from) ==> ReadsCommitted(d, n.log, off, strict))
            && (Sound(c) && AllExact(c, steps) ==> Faithful(d, n.from))
  {
    hide Legal, Run, AllExact, NodeHolds, ReadsCommitted, Contents, Records, ValidCommand;
    var d := Run(c, steps);
    RunHolds(c, steps);
    SoundIff(d, d.nodes[i]);
    if Faithful(d, d.nodes[i].from) {
      ReadOk(d, d.nodes[i], off, strict);
    }
    if Sound(c) && AllExact(c, steps) {
      RunOk(c, steps);
    }
  }

  /** The log is a prefix of the committed records, and a read gives the one at that offset. */
  ghost predicate ReadsCommitted(d: Cluster, log: LogState, off: nat, strict: bool)
    requires d.initial + |d.committed| < TWO_64
  {
    var all := Records(d, |d.committed|);
    && Contents(log) <= all
    && match Read(log, off, strict)
       case Ok(r) => d.initial <= off < d.initial + |all| && r == all[off - d.initial]
       case Err(e) => e == OffsetOutOfRange(off) || (e == InvalidRecordSize && off == 0)
  }

  lemma {:induction false} ReadOk(d: Cluster, n: Node, off: nat, strict: bool)
    requires d.initial + |d.committed| < TWO_64 && n.Running? && NodeHolds(d, n) && Faithful(d, n.from)
    ensures ReadsCommitted(d, n.log, off, strict)
  {
    hide Good, Contents, Read, Boundary, Decode, Marshal;
    SoundIff(d, n);
    RecordsSplit(d, n.applied, |d.committed|);
    ReadStrict(n.log, off);
    ReadAsWritten(n.log, off);
    ContentsContiguous(n.log);
    if Lowest(n.log) <= off < Next(n.log) {
      MarshalSize(Contents(n.log)[off - Lowest(n.log)]);
    }
  }

  /** No step restores a stream that holds a record with the Reset as written. */
  predicate Harmless(c: Cluster, step: Step) {
    step.Install? && step.snapshot < |c.saved| ==>
      step.repaired || Parse(c.saved[step.snapshot].stream).records == []
  }

  ghost predicate AllHarmless(c: Cluster, steps: seq<Step>)
    requires Legal(c, steps)
    decreases |steps|
  {
    steps == [] || (Harmless(c, steps[0]) && AllHarmless(Do(c, steps[0]), steps[1..]))
  }

  ghost predicate AllRunning(c: Cluster) {
    forall i :: 0 <= i < |c.nodes| ==> c.nodes[i].Running?
  }

  lemma {:induction false} StepRuns(c: Cluster, step: Step)
    requires Enabled(c, step)
    ensures AllRunning(Do(c, step)) <==> AllRunning(c) && Harmless(c, step)
  {
    hide Apply, Restore, Contents, Decode, ValidCommand, Good, Fits, Print, Parse;
    match step {
      case ApplyNext(i) =>
        assert forall j :: 0 <= j < |c.nodes| ==> Do(c, step).nodes[j].Running? == c.nodes[j].Running?;
      case Install(s, i, repaired) =>
        var d := Do(c, step);
        assert d.nodes[i] == Installed(c.nodes[i], c.saved[s], repaired);
        assert forall j :: 0 <= j < |c.nodes| && j != i ==> d.nodes[j] == c.nodes[j];
      case _ =>
    }
  }

  /** Every node is still running at the end of a run exactly when no step restored
      a stream with a record through the Reset as written. */
  lemma {:induction false} RunRuns(c: Cluster, steps: seq<Step>)
    requires Legal(c, steps)
    ensures AllRunning(Run(c, steps)) <==> AllRunning(c) && AllHarmless(c, steps)
    decreases |steps|
  {
    hide Do, Enabled, Harmless, AllRunning;
    if steps != [] {
      StepRuns(c, steps[0]);
      RunRuns(Do(c, steps[0]), steps[1..]);
    }
  }

  /** Any two nodes, at any two moments of any run, answer the same to the same
      command exactly when it appends nothing or they hold equally many records
      then; and they do if their last streams held no record beyond their index. */
  lemma {:induction false} SameAnswers(c: Cluster, steps: seq<Step>, more: seq<Step>, i: nat, j: nat)
    requires Holding(c) && Legal(c, steps) && Legal(Run(c, steps), more)
    requires Permitted(Run(c, steps), ApplyNext(i)) && Permitted(Run(Run(c, steps), more), ApplyNext(j))
    requires Run(c, steps).nodes[i].applied == Run(Run(c, steps), more).nodes[j].applied
    ensures var d, e := Run(c, steps), Run(Run(c, steps), more);
            var n, m, k := d.nodes[i], e.nodes[j], d.nodes[i].applied;
            && k < |d.committed| && d.committed[k] == e.committed[k]
            && Enabled(d, ApplyNext(i)) && Enabled(e, ApplyNext(j))
            && n.from.index <= k && m.from.index <= k
            && (Apply(n.log, d.committed[k]).1 == Apply(m.log, e.committed[k]).1 <==>
                  Decoded(d.committed[k]) == [] || Count(d, n.from, k) == Count(e, m.from, k))
            && d.initial + |d.committed| < TWO_64 && e.initial + |e.committed| < TWO_64
            && (Faithful(d, n.from) && Faithful(e, m.from) ==> Count(d, n.from, k) == Count(e, m.from, k))
  {
    hide Legal, Run, Apply, Decoded, Count, ValidCommand, Decode, Good, UnmarshalRequest, Print, Parse, Contents, Held;
    hide Faithful, Committed, Persists;
    var d, e := Run(c, steps), Run(Run(c, steps), more);
    RunHolds(c, steps);
    RunHolds(d, more);
    RunCommits(d, more);
    GuardsHold(d, ApplyNext(i));
    GuardsHold(e, ApplyNext(j));
    var n, m, k := d.nodes[i], e.nodes[j], d.nodes[i].applied;
    NodeAt(d, i);
    NodeAt(e, j);
    ApplyHolds(d, n);
    ApplyHolds(e, m);
    if Faithful(d, n.from) && Faithful(e, m.from) {
      CountFaithful(d, n.from, k);
      CountFaithful(e, m.from, k);
      assert d.committed[..k] == e.committed[..k];
    }
  }

  lemma {:induction false} CountFaithful(c: Cluster, from: Origin, k: nat)
    requires c.initial + |c.committed| < TWO_64 && Faithful(c, from) && from.index <= k <= |c.committed|
    ensures Count(c, from, k) == |Decode(c.committed[..k])|
  {
    hide Decode;
    RecordsSplit(c, from.index, k);
  }

  // ---------- what a run brings about

  /** The data of the Commit steps. */
  function Committed(steps: seq<Step>): seq<bytes> {
    if steps == [] then []
    else (if steps[0].Commit? then [steps[0].data] else []) + Committed(steps[1..])
  }

  /** How many steps apply a command at node `i`. */
  function Applies(steps: seq<Step>, i: nat): nat {
    if steps == [] then 0 else (if steps[0] == ApplyNext(i) then 1 else 0) + Applies(steps[1..], i)
  }

  function Persists(steps: seq<Step>): nat {
    if steps == [] then 0 else (if steps[0].Persist? then 1 else 0) + Persists(steps[1..])
  }

  /** A run commits what its Commit steps carry, in order, saves a snapshot with each
      Persist step, and keeps the nodes and the snapshots there were. */
  lemma {:induction false} RunCommits(c: Cluster, steps: seq<Step>)
    requires Legal(c, steps)
    ensures Run(c, steps).committed == c.committed + Committed(steps) && Run(c, steps).initial == c.initial
    ensures c.saved <= Run(c, steps).saved && |Run(c, steps).saved| == |c.saved| + Persists(steps)
    ensures |Run(c, steps).nodes| == |c.nodes|
    decreases |steps|
  {
    if steps == [] {
      Regroup(c.committed, [], []);
    } else {
      StepCommits(c, steps[0]);
      RunCommits(Do(c, steps[0]), steps[1..]);
      Regroup(c.committed, if steps[0].Commit? then [steps[0].data] else [], Committed(steps[1..]));
    }
  }

  lemma {:induction false} StepCommits(c: Cluster, step: Step)
    requires Enabled(c, step)
    ensures Do(c, step).committed == c.committed + (if step.Commit? then [step.data] else [])
    ensures Do(c, step).initial == c.initial && |Do(c, step).nodes| == |c.nodes|
    ensures c.saved <= Do(c, step).saved && |Do(c, step).saved| == |c.saved| + if step.Persist? then 1 else 0
  {
    hide Good, Apply, Installed, Contents, Print, ValidCommand;
  }

  /** A node that installs nothing applies one more command with each of its ApplyNext
      steps, and ends with what it held and the records of exactly those commands,
      under the next offsets. */
  lemma {:induction false} NodeProgress(c: Cluster, steps: seq<Step>, i: nat)
    requires Holding(c) && Legal(c, steps) && i < |c.nodes| && c.nodes[i].Running?
    requires forall k :: 0 <= k < |steps| && steps[k].Install? ==> steps[k].node != i
    ensures i < |Run(c, steps).nodes|
    ensures var n, d := c.nodes[i], Run(c, steps);
            var m := d.nodes[i];
            && m.Running? && n.log.segments != [] && m.log.segments != []
            && n.applied <= m.applied == n.applied + Applies(steps, i) <= |d.committed|
            && d.committed == c.committed + Committed(steps)
            && var made := Decode(d.committed[n.applied..m.applied]);
               && Next(n.log) + |made| == Next(m.log) < TWO_64
               && Contents(m.log) == Contents(n.log) + Restamp(made, Next(n.log))
  {
    hide Legal, Run, Committed, Decode, Contents, Good, Applies;
    RunHolds(c, steps);
    RunCommits(c, steps);
    NodeApplies(c, steps, i);
    var n, d := c.nodes[i], Run(c, steps);
    var m := d.nodes[i];
    NodeAt(c, i);
    NodeAt(d, i);
    HeldLater(c, d, n, m);
  }

  lemma {:induction false} NodeApplies(c: Cluster, steps: seq<Step>, i: nat)
    requires Legal(c, steps) && i < |c.nodes| && c.nodes[i].Running?
    requires forall k :: 0 <= k < |steps| && steps[k].Install? ==> steps[k].node != i
    ensures i < |Run(c, steps).nodes| && Run(c, steps).nodes[i].Running?
    ensures Run(c, steps).nodes[i].applied == c.nodes[i].applied + Applies(steps, i)
    ensures Run(c, steps).nodes[i].from == c.nodes[i].from
    decreases |steps|
  {
    hide Good, Apply, Installed, Contents, Print, ValidCommand, Decode;
    if steps != [] {
      NodeApplies(Do(c, steps[0]), steps[1..], i);
    }
  }

  /** Two moments of a node without an install in between. */
  lemma {:induction false} HeldLater(c: Cluster, d: Cluster, n: Node, m: Node)
    requires n.Running? && m.Running? && NodeHolds(c, n) && NodeHolds(d, m)
    requires m.from == n.from && n.applied <= m.applied && c.initial == d.initial && c.committed <= d.committed
    ensures var made := Decode(d.committed[n.applied..m.applied]);
            && Next(n.log) + |made| == Next(m.log) < TWO_64
            && Contents(m.log) == Contents(n.log) + Restamp(made, Next(n.log))
  {
    hide Contents, Good, Held, Count;
    HeldMore(c, d, n.from, n.applied, m.applied);
  }

  lemma {:induction false} HeldMore(c: Cluster, d: Cluster, from: Origin, n: nat, m: nat)
    requires from.index <= n <= |c.committed| && n <= m <= |d.committed|
    requires c.initial == d.initial && c.committed <= d.committed && d.initial + Count(d, from, m) < TWO_64
    ensures var made := Decode(d.committed[n..m]);
            && Count(d, from, m) == Count(c, from, n) + |made|
            && Held(d, from, m) == Held(c, from, n) + Restamp(made, c.initial + Count(c, from, n))
  {
    hide Decode, Restamp;
    var all, k := d.committed[from.index..m], n - from.index;
    assert all[..k] == c.committed[from.index..n] && all[k..] == d.committed[n..m];
    DecodeSplit(all, k);
    var before, made, first := Since(c, from, n), Decode(all[k..]), c.initial + |from.records|;
    RestampConcat(before, made, first);
    Regroup(from.records, Restamp(before, first), Restamp(made, first + |before|));
  }

  lemma {:induction false} RunLast(c: Cluster, steps: seq<Step>, step: Step)
    requires Legal(c, steps + [step])
    ensures Legal(c, steps) && Enabled(Run(c, steps), step) && Run(c, steps + [step]) == Do(Run(c, steps), step)
    decreases |steps|
  {
    if steps == [] {
      assert steps + [step] == [step];
    } else {
      assert (steps + [step])[1..] == steps[1..] + [step];
      RunLast(Do(c, steps[0]), steps[1..], step);
    }
  }

  /** The snapshot a Persist step saves has the index and the node's first records. */
  lemma {:induction false} PersistSaves(c: Cluster, steps: seq<Step>, i: nat, index: nat, count: nat)
    requires Holding(c) && Legal(c, steps + [Persist(i, index, count)])
    ensures Legal(c, steps) && i < |Run(c, steps).nodes| && Run(c, steps).nodes[i].Running?
    ensures var before, after := Run(c, steps), Run(c, steps + [Persist(i, index, count)]);
            && |after.saved| == |before.saved| + 1 && count <= |Contents(before.nodes[i].log)|
            && after.saved[|before.saved|].index == index
            && Parse(after.saved[|before.saved|].stream).records == Contents(before.nodes[i].log)[..count]
  {
    hide Legal, Run, Parse, Print, Contents, Good, Decode;
    RunLast(c, steps, Persist(i, index, count));
    RunHolds(c, steps);
    NodeAt(Run(c, steps), i);
    PersistHolds(Run(c, steps), Run(c, steps).nodes[i], index, count);
  }

  /** A node that installs a snapshot with a record, with the intended Reset, is at
      the snapshot's index and holds its records; without a record it is at the index
      with what it held; as written it breaks on any record. */
  lemma {:induction false} InstallMoves(c: Cluster, steps: seq<Step>, s: nat, i: nat, repaired: bool)
    requires Holding(c) && Legal(c, steps + [Install(s, i, repaired)])
    ensures Legal(c, steps) && i < |Run(c, steps).nodes| && s < |Run(c, steps).saved|
    ensures var before, after := Run(c, steps), Run(c, steps + [Install(s, i, repaired)]);
            var n, rs := before.nodes[i], Parse(before.saved[s].stream).records;
            && |after.nodes| == |before.nodes| && n.Running?
            && (forall j :: 0 <= j < |before.nodes| && j != i ==> after.nodes[j] == before.nodes[j])
            && (if rs != [] && !repaired then after.nodes[i].Broken?
                else
                  && after.nodes[i].Running? && after.nodes[i].applied == before.saved[s].index
                  && Contents(after.nodes[i].log) == if rs == [] then Contents(n.log) else rs)
  {
    hide Legal, Run, Parse, Print, Contents, Good, Decode, Restore;
    RunLast(c, steps, Install(s, i, repaired));
    RunHolds(c, steps);
    var before := Run(c, steps);
    NodeAt(before, i);
    InstallHolds(before, before.nodes[i], before.saved[s], repaired);
    if Parse(before.saved[s].stream).records == [] {
      RestoreNothing(before.nodes[i].log);
    }
  }

  /** The shortest run: a fresh node commits and applies one record. */
  lemma {:induction false} FirstRecord(limits: Limits, r: Record)
    requires GoodLimits(limits) && |Marshal(r)| < 0x8000_0000
    ensures var c, steps := Cluster(0, [], [FirstNode(limits, 0)], []), [Commit(Command(r)), ApplyNext(0)];
            && Legal(c, steps) && |Run(c, steps).nodes| == 1 && Run(c, steps).nodes[0].Running?
            && Run(c, steps).nodes[0].applied == 1 && Contents(Run(c, steps).nodes[0].log) == [Stamp(r, 0)]
  {
    hide Good, Contents, Command, Marshal, Append, Fresh;
    FreshGood(limits, 0);
    CommandDecoded(r);
    AppendAdds(Fresh(limits, 0), r);
    var c, first := Cluster(0, [], [FirstNode(limits, 0)], []), Commit(Command(r));
    var d := Do(c, first);
    assert [first, ApplyNext(0)][1..] == [ApplyNext(0)] && [ApplyNext(0)][1..] == [];
    assert Legal(d, [ApplyNext(0)]) && Run(d, [ApplyNext(0)]) == Run(Do(d, ApplyNext(0)), []);
  }

  // ---------- a snapshot that ran ahead of its index

  ghost function Replay(log: LogState, commands: seq<bytes>): LogState
    requires Good(log) && Next(log) + |commands| < TWO_64
  {
    AppendAllAdds(log, Decode(commands));
    AppendAll(log, Decode(commands))
  }

  /** A node restores a snapshot with `count` records, taken at `index`, with the
      intended Reset, and then applies the commands after `index`: it ends with the records of the
      committed commands exactly when the snapshot stopped at its index. */
  lemma {:induction false} SnapshotReplay(c: Cluster, log: LogState, index: nat, count: nat)
    requires c.initial + 2 * |c.committed| < TWO_64 && index <= |c.committed|
    requires 0 < count && |Decode(c.committed[..index])| <= count <= |Records(c, |c.committed|)|
    requires GoodLimits(log.limits)
    ensures var stream := Print(Records(c, |c.committed|)[..count]);
            && Fits(stream) && Good(Restore(log, stream)) && Next(Restore(log, stream)) + |c.committed| < TWO_64
            && (Contents(Replay(Restore(log, stream), c.committed[index..])) == Records(c, |c.committed|)
                <==> count == |Decode(c.committed[..index])|)
  {
    hide Good, Contents, Print, Parse, Restore, AppendAll, Decode, Restamp;
    var rs := Records(c, |c.committed|)[..count];
    RestorePrinted(log, rs, c.initial);
    var restored := Restore(log, Print(rs));
    ContentsContiguous(restored);
    AppendAllAdds(restored, Decode(c.committed[index..]));
    ReplayedRecords(c, index, count);
  }

  lemma {:induction false} ReplayedRecords(c: Cluster, index: nat, count: nat)
    requires c.initial + 2 * |c.committed| < TWO_64 && index <= |c.committed|
    requires |Decode(c.committed[..index])| <= count <= |Records(c, |c.committed|)|
    ensures Records(c, |c.committed|)[..count] + Restamp(Decode(c.committed[index..]), c.initial + count) ==
            Records(c, |c.committed|)
            <==> count == |Decode(c.committed[..index])|
  {
    hide Decode;
    DecodeSplit(c.committed, index);
    assert c.committed[..|c.committed|] == c.committed;
    var a, b := Decode(c.committed[..index]), Decode(c.committed[index..]);
    var all, replayed := Records(c, |c.committed|), Restamp(b, c.initial + count);
    assert |all| == |a| + |b|;
    if count == |a| {
      assert all[..count] + replayed == all;
    }
  }

  /** Two appends of `r` are committed; a snapshot is taken after the first, but its
      stream is read after the second was applied.  The node that restores it and
      goes on from the second command ends with three records. */
  lemma {:induction false} SnapshotAhead(r: Record, limits: Limits)
    requires GoodLimits(limits) && |Marshal(r)| < 0x8000_0000
    ensures Decode([Command(r), Command(r)]) == [r, r] && Decode([Command(r)]) == [r]
    ensures var stream := Print([Stamp(r, 0), Stamp(r, 1)]);
            && Fits(stream) && Good(Restore(Fresh(limits, 0), stream))
            && Next(Restore(Fresh(limits, 0), stream)) + 1 < TWO_64
            && Contents(Replay(Restore(Fresh(limits, 0), stream), [Command(r)])) ==
              [Stamp(r, 0), Stamp(r, 1), Stamp(r, 2)]
  {
    hide Good, Contents, Print, Parse, Restore, AppendAll, Command, Decode, Decoded, Marshal;
    DecodeTwo(r);
    var rs := [Stamp(r, 0), Stamp(r, 1)];
    RestorePrinted(Fresh(limits, 0), rs, 0);
    var restored := Restore(Fresh(limits, 0), Print(rs));
    ContentsContiguous(restored);
    AppendAllAdds(restored, [r]);
    assert Restamp([r], 2) == [Stamp(r, 2)];
  }

  lemma {:induction false} DecodeTwo(r: Record)
    requires |Marshal(r)| < 0x8000_0000
    ensures Decode([Command(r), Command(r)]) == [r, r] && Decode([Command(r)]) == [r]
  {
    hide Command, Decode, Decoded, Marshal;
    CommandDecoded(r);
    DecodeOne(Command(r));
    DecodeSplit([Command(r), Command(r)], 1);
    assert [Command(r), Command(r)][..1] == [Command(r)] == [Command(r), Command(r)][1..];
  }

  lemma {:induction false} DecodeOne(data: bytes)
    ensures Decode([data]) == Decoded(data)
  {
    assert [data][..0] == [];
    assert Decode([]) == [];
  }

  lemma {:induction false} DecodeSplit(commands: seq<bytes>, n: nat)
    requires n <= |commands|
    ensures Decode(commands) == Decode(commands[..n]) + Decode(commands[n..])
    decreases |commands|
  {
    hide Decoded;
    if n == |commands| {
      assert commands[..n] == commands && commands[n..] == [];
    } else {
      var init, last := commands[..|commands| - 1], commands[|commands| - 1];
      DecodeSplit(init, n);
      assert init[..n] == commands[..n];
      var tail := commands[n..];
      assert tail[..|tail| - 1] == init[n..] && tail[|tail| - 1] == last;
      var a, b, d := Decode(commands[..n]), Decode(init[n..]), Decoded(last);
      assert a + (b + d) == (a + b) + d;
    }
  }
}
