/** The fleet-wide commands of redis/cluster.go: ClusterConfigCheck,
    ClusterConfigGet, ClusterConfigSet and ClusterFLUSHALL. The network is an
    abstract fleet, a map from address to what the code can observe of the
    node there; opening a connection, the five-second and thirty-minute
    timeouts and closing connections are not modelled. */
module ClusterFleet {
  import opened Results
  import opened Text
  import ClusterBuild

  /** What the fleet code sees of one Redis node. `reachable`: a connection
      opens and the read commands (CONFIG GET, INFO) answer; `writable`:
      CONFIG SET succeeds; `flushable`: the flush command succeeds; `config`:
      what CONFIG GET answers; `version`: the `redis_version` field of INFO;
      `flushed`: the node's data has been flushed. */
  datatype Node = Node(reachable: bool, writable: bool, flushable: bool, config: map<string, string>, version: string, flushed: bool)

  /** The failures the commands report, by kind and address. */
  datatype FleetError =
    | Unreachable(addr: string)
    | Inconsistent
    | WriteRejected(addr: string)
    | BadVersion(addr: string)
    | FlushRejected(addr: string)

  const TimeoutKey: string := "cluster-node-timeout"
  const RelaxedTimeout: string := "1800"
  const FlushAllCmd: string := "FLUSHALL"

  predicate Readable(nodes: map<string, Node>, a: string)
  {
    a in nodes && nodes[a].reachable
  }

  predicate Writable(nodes: map<string, Node>, a: string)
  {
    Readable(nodes, a) && nodes[a].writable
  }

  /** Every reachable node the loop may ask knows `key`: the source reads the
      second element of the CONFIG GET answer unchecked. */
  predicate ConfigDefined(nodes: map<string, Node>, addrs: seq<string>, key: string)
  {
    forall a :: a in addrs && Readable(nodes, a) ==> key in nodes[a].config
  }

  /** What CONFIG GET `key` answers at `a` ("" where nothing answers). */
  function ValueAt(nodes: map<string, Node>, a: string, key: string): string
  {
    if Readable(nodes, a) && key in nodes[a].config then nodes[a].config[key] else ""
  }

  /** The answers of the nodes at `addrs`, in order. */
  function Values(nodes: map<string, Node>, addrs: seq<string>, key: string): (vs: seq<string>)
    ensures |vs| == |addrs| && forall i :: 0 <= i < |addrs| ==> vs[i] == ValueAt(nodes, addrs[i], key)
  {
    seq(|addrs|, i requires 0 <= i < |addrs| => ValueAt(nodes, addrs[i], key))
  }

  // ---------------------------------------------------------------- reading a setting

  /** What stops the read loop at step `i`: a node that cannot be reached, or
      an answer that differs from the previous answer when that one was not
      empty. An empty answer constrains nothing. */
  function FaultAt(nodes: map<string, Node>, addrs: seq<string>, key: string, i: int): Option<FleetError>
    requires 0 <= i < |addrs|
  {
    if !Readable(nodes, addrs[i]) then Some(Unreachable(addrs[i]))
    else if i > 0 && ValueAt(nodes, addrs[i - 1], key) != "" && ValueAt(nodes, addrs[i - 1], key) != ValueAt(nodes, addrs[i], key) then
      Some(Inconsistent)
    else None
  }

  /** The read loop runs to the end. */
  predicate Consistent(nodes: map<string, Node>, addrs: seq<string>, key: string)
  {
    forall i :: 0 <= i < |addrs| ==> FaultAt(nodes, addrs, key, i).None?
  }

  /** Step `k` is where the read loop stops. */
  predicate FirstFault(nodes: map<string, Node>, addrs: seq<string>, key: string, k: int)
  {
    && 0 <= k < |addrs|
    && FaultAt(nodes, addrs, key, k).Some?
    && forall j :: 0 <= j < k ==> FaultAt(nodes, addrs, key, j).None?
  }

  /** The first non-empty answer, or "" when every answer is empty. */
  function FirstNonEmpty(vs: seq<string>): (v: string)
    ensures v == "" <==> forall i :: 0 <= i < |vs| ==> vs[i] == ""
    ensures v != "" ==> exists i :: 0 <= i < |vs| && vs[i] == v && forall j :: 0 <= j < i ==> vs[j] == ""
  {
    if |vs| == 0 then ""
    else if vs[0] != "" then vs[0]
    else
      var v := FirstNonEmpty(vs[1..]);
      assert forall i :: 1 <= i < |vs| ==> vs[i] == vs[1..][i - 1];
      v
  }

  /** The value a read settles on. */
  function Settled(nodes: map<string, Node>, addrs: seq<string>, key: string): string
  {
    FirstNonEmpty(Values(nodes, addrs, key))
  }

  lemma {:induction false} FirstNonEmptyAppend(vs: seq<string>, v: string)
    ensures FirstNonEmpty(vs + [v]) == if FirstNonEmpty(vs) == "" then v else FirstNonEmpty(vs)
  {
    if |vs| > 0 {
      assert (vs + [v])[1..] == vs[1..] + [v];
      FirstNonEmptyAppend(vs[1..], v);
    }
  }

  /** A read runs to the end exactly when every node answers and, once a
      non-empty answer has come, every later answer repeats it. */
  lemma ConsistentShape(nodes: map<string, Node>, addrs: seq<string>, key: string)
    ensures Consistent(nodes, addrs, key) <==>
              && (forall i :: 0 <= i < |addrs| ==> Readable(nodes, addrs[i]))
              && (forall i, j :: 0 <= i < j < |addrs| && ValueAt(nodes, addrs[i], key) != "" ==>
                    ValueAt(nodes, addrs[j], key) == ValueAt(nodes, addrs[i], key))
  {
    if Consistent(nodes, addrs, key) {
      forall i | 0 <= i < |addrs|
        ensures Readable(nodes, addrs[i])
      {
        assert FaultAt(nodes, addrs, key, i).None?;
      }
      forall i, j | 0 <= i < j < |addrs| && ValueAt(nodes, addrs[i], key) != ""
        ensures ValueAt(nodes, addrs[j], key) == ValueAt(nodes, addrs[i], key)
      {
        RunRepeats(nodes, addrs, key, i, j);
      }
    } else if forall i :: 0 <= i < |addrs| ==> Readable(nodes, addrs[i]) {
      var k :| 0 <= k < |addrs| && FaultAt(nodes, addrs, key, k).Some?;
      assert 0 < k && ValueAt(nodes, addrs[k - 1], key) != "" && ValueAt(nodes, addrs[k], key) != ValueAt(nodes, addrs[k - 1], key);
    }
  }

  lemma {:induction false} RunRepeats(nodes: map<string, Node>, addrs: seq<string>, key: string, i: int, j: int)
    requires Consistent(nodes, addrs, key)
    requires 0 <= i < j < |addrs| && ValueAt(nodes, addrs[i], key) != ""
    ensures ValueAt(nodes, addrs[j], key) == ValueAt(nodes, addrs[i], key)
    decreases j - i
  {
    assert FaultAt(nodes, addrs, key, j).None?;
    if i < j - 1 {
      RunRepeats(nodes, addrs, key, i, j - 1);
    }
  }

  /** A read that runs to the end settles on the last answer. */
  lemma SettledIsLast(nodes: map<string, Node>, addrs: seq<string>, key: string)
    requires Consistent(nodes, addrs, key) && |addrs| > 0
    ensures Settled(nodes, addrs, key) == ValueAt(nodes, addrs[|addrs| - 1], key)
  {
    var vs := Values(nodes, addrs, key);
    var v := FirstNonEmpty(vs);
    if v != "" {
      var f :| 0 <= f < |vs| && vs[f] == v && forall j :: 0 <= j < f ==> vs[j] == "";
      if f < |addrs| - 1 {
        RunRepeats(nodes, addrs, key, f, |addrs| - 1);
      }
    }
  }

  /** When every node answers the same value, the read settles on it. */
  lemma UniformRead(nodes: map<string, Node>, addrs: seq<string>, key: string, v: string)
    requires forall a :: a in addrs ==> Readable(nodes, a) && ValueAt(nodes, a, key) == v
    ensures Consistent(nodes, addrs, key)
    ensures Settled(nodes, addrs, key) == if |addrs| == 0 then "" else v
  {
    assert forall i :: 0 <= i < |addrs| ==> addrs[i] in addrs;
    if |addrs| > 0 && v != "" {
      assert Values(nodes, addrs, key)[0] == v;
    }
  }

  /** An empty answer followed by "5" reads as "5", while "5" followed by an
      empty answer is an inconsistency. */
  lemma EmptyThenValue(nodes: map<string, Node>, a: string, b: string)
    requires Readable(nodes, a) && Readable(nodes, b)
    requires ValueAt(nodes, a, TimeoutKey) == "" && ValueAt(nodes, b, TimeoutKey) == "5"
    ensures Consistent(nodes, [a, b], TimeoutKey) && Settled(nodes, [a, b], TimeoutKey) == "5"
    ensures FirstFault(nodes, [b, a], TimeoutKey, 1) && FaultAt(nodes, [b, a], TimeoutKey, 1) == Some(Inconsistent)
  {
    var vs := Values(nodes, [a, b], TimeoutKey);
    assert vs == ["", "5"];
    assert vs[1..] == ["5"];
    assert FirstNonEmpty(vs[1..]) == "5";
  }

  /** A read of a timeout that every answering node holds as `v` can only
      stop at a node that does not answer. */
  lemma UniformFault(nodes: map<string, Node>, addrs: seq<string>, v: string, k: int)
    requires forall a :: a in addrs && Readable(nodes, a) ==> ValueAt(nodes, a, TimeoutKey) == v
    requires 0 <= k < |addrs| && FaultAt(nodes, addrs, TimeoutKey, k).Some?
    ensures FaultAt(nodes, addrs, TimeoutKey, k) == Some(Unreachable(addrs[k]))
  {
    if k > 0 && ValueAt(nodes, addrs[k - 1], TimeoutKey) != "" {
      assert addrs[k - 1] in addrs && addrs[k] in addrs;
    }
  }

  // ---------------------------------------------------------------- writing a setting

  /** `nodes` after CONFIG SET `key` `v` at every address in `written`. */
  function WithConfig(nodes: map<string, Node>, written: seq<string>, key: string, v: string): map<string, Node>
  {
    map a | a in nodes :: if a in written then nodes[a].(config := nodes[a].config[key := v]) else nodes[a]
  }

  /** Writing at one more address. */
  lemma WithConfigStep(nodes: map<string, Node>, addrs: seq<string>, i: int, key: string, v: string)
    requires 0 <= i < |addrs| && addrs[i] in nodes
    ensures var cur := WithConfig(nodes, addrs[..i], key, v); var a := addrs[i];
            WithConfig(nodes, addrs[..i + 1], key, v) == cur[a := cur[a].(config := cur[a].config[key := v])]
  {
    var cur := WithConfig(nodes, addrs[..i], key, v);
    assert addrs[..i + 1] == addrs[..i] + [addrs[i]];
    assert cur[addrs[i]].config[key := v] == nodes[addrs[i]].config[key := v];
  }

  /** Writes leave a node as reachable and as writable as it was. */
  lemma WithConfigKeeps(nodes: map<string, Node>, written: seq<string>, key: string, v: string, a: string)
    ensures var w := WithConfig(nodes, written, key, v);
            Readable(w, a) == Readable(nodes, a) && (a in nodes ==> w[a].writable == nodes[a].writable)
  {
  }

  /** The error of a write that fails at `a`. */
  function WriteFault(nodes: map<string, Node>, a: string): FleetError
  {
    if Readable(nodes, a) then WriteRejected(a) else Unreachable(a)
  }

  /** Step `k` is the first at which a write fails. */
  predicate FirstUnwritable(nodes: map<string, Node>, addrs: seq<string>, k: int)
  {
    && 0 <= k < |addrs|
    && !Writable(nodes, addrs[k])
    && forall j :: 0 <= j < k ==> Writable(nodes, addrs[j])
  }

  /** A read after writing `v` everywhere settles on `v`. */
  lemma SetThenGet(nodes: map<string, Node>, addrs: seq<string>, key: string, v: string)
    requires forall a :: a in addrs ==> Readable(nodes, a)
    ensures Consistent(WithConfig(nodes, addrs, key, v), addrs, key)
    ensures Settled(WithConfig(nodes, addrs, key, v), addrs, key) == if |addrs| == 0 then "" else v
  {
    UniformRead(WithConfig(nodes, addrs, key, v), addrs, key, v);
  }

  /** Two fleets give the same answers at `addrs` to a read of `key`. */
  predicate SameAnswers(n0: map<string, Node>, n1: map<string, Node>, addrs: seq<string>, key: string)
  {
    forall a :: a in addrs ==> Readable(n0, a) == Readable(n1, a) && ValueAt(n0, a, key) == ValueAt(n1, a, key)
  }

  /** A read depends only on the answers. */
  lemma SameRead(n0: map<string, Node>, n1: map<string, Node>, addrs: seq<string>, key: string)
    requires SameAnswers(n0, n1, addrs, key)
    ensures Consistent(n0, addrs, key) == Consistent(n1, addrs, key)
    ensures Settled(n0, addrs, key) == Settled(n1, addrs, key)
  {
    assert forall i :: 0 <= i < |addrs| ==> addrs[i] in addrs;
    assert Values(n0, addrs, key) == Values(n1, addrs, key);
    assert forall i :: 0 <= i < |addrs| ==> FaultAt(n0, addrs, key, i) == FaultAt(n1, addrs, key, i);
  }

  // ---------------------------------------------------------------- flushing the cluster

  /** The major version: the integer before the first `.` of redis_version. */
  function Major(version: string): Option<int>
  {
    ParseInt64(Split(version, '.')[0])
  }

  /** Whether a run with `flushCmd` flushes a node of this version: version 3
      with FLUSHALL or its renamed form, version 4 and later only when the
      command is FLUSHALL itself (sent as FLUSHALL ASYNC), earlier versions never. */
  predicate Flushes(version: string, flushCmd: string)
  {
    var m := Major(version);
    m.Some? && (m.value == 3 || (m.value >= 4 && flushCmd == FlushAllCmd))
  }

  /** The node at `a` answers and runs major version 3. */
  predicate IsV3(nodes: map<string, Node>, a: string)
  {
    Readable(nodes, a) && Major(nodes[a].version) == Some(3)
  }

  /** The checks of one pass that do not depend on the passes before it:
      the node answers, its version parses, and it accepts the flush it gets. */
  predicate PassOk(nodes: map<string, Node>, a: string, flushCmd: string)
  {
    Readable(nodes, a) && Major(nodes[a].version).Some? && (Flushes(nodes[a].version, flushCmd) ==> nodes[a].flushable)
  }

  predicate HasV3(nodes: map<string, Node>, addrs: seq<string>)
  {
    exists i :: 0 <= i < |addrs| && IsV3(nodes, addrs[i])
  }

  /** A run over `addrs` completes: the timeout reads consistently, every
      pass's own checks hold, and when some node is on version 3 every node
      accepts the timeout writes. */
  predicate FlushSucceeds(nodes: map<string, Node>, addrs: seq<string>, flushCmd: string)
  {
    && Consistent(nodes, addrs, TimeoutKey)
    && (forall i :: 0 <= i < |addrs| ==> PassOk(nodes, addrs[i], flushCmd))
    && (HasV3(nodes, addrs) ==> forall i :: 0 <= i < |addrs| ==> Writable(nodes, addrs[i]))
  }

  /** The first index of `s` whose element satisfies `p`, or |s| when none does. */
  function FirstWhere(s: seq<string>, p: string -> bool): (k: int)
    ensures 0 <= k <= |s|
    ensures forall j :: 0 <= j < k ==> !p(s[j])
    ensures k < |s| ==> p(s[k])
  {
    if |s| == 0 || p(s[0]) then 0
    else
      var k := FirstWhere(s[1..], p);
      assert forall j :: 1 <= j < k + 1 ==> s[j] == s[1..][j - 1];
      1 + k
  }

  /** The pass at which a run meets its first version-3 node, or |addrs|. */
  function FirstV3(nodes: map<string, Node>, addrs: seq<string>): int
  {
    FirstWhere(addrs, a => IsV3(nodes, a))
  }

  /** The step at which a CONFIG SET along `addrs` first fails, or |addrs|. */
  function FirstRefusal(nodes: map<string, Node>, addrs: seq<string>): int
  {
    FirstWhere(addrs, a => !Writable(nodes, a))
  }

  /** When every node takes CONFIG SET, no step of it fails. */
  lemma NoRefusal(nodes: map<string, Node>, addrs: seq<string>)
    requires forall a :: a in addrs ==> Writable(nodes, a)
    ensures FirstRefusal(nodes, addrs) == |addrs|
  {
    assert forall j :: 0 <= j < |addrs| ==> Writable(nodes, addrs[j]);
  }

  /** The error that stops the run at pass `i`, if any, where `seen` says
      whether an earlier pass met a version-3 node: the node does not answer,
      its version does not parse, the relaxing write at the first version-3
      node fails at some node, or the node refuses the flush it gets. */
  function PassFault(nodes: map<string, Node>, addrs: seq<string>, i: int, flushCmd: string, seen: bool): Option<FleetError>
    requires 0 <= i < |addrs|
  {
    var a := addrs[i];
    if !Readable(nodes, a) then Some(Unreachable(a))
    else if Major(nodes[a].version).None? then Some(BadVersion(a))
    else if !seen && IsV3(nodes, a) && FirstRefusal(nodes, addrs) < |addrs| then
      Some(WriteFault(nodes, addrs[FirstRefusal(nodes, addrs)]))
    else if Flushes(nodes[a].version, flushCmd) && !nodes[a].flushable then Some(FlushRejected(a))
    else None
  }

  /** The error of pass `i` in a run where every earlier pass completed. */
  function RunFault(nodes: map<string, Node>, addrs: seq<string>, i: int, flushCmd: string): Option<FleetError>
    requires 0 <= i < |addrs|
  {
    PassFault(nodes, addrs, i, flushCmd, FirstV3(nodes, addrs) < i)
  }

  /** Pass `k` is the one that stops the run. */
  predicate FailsAt(nodes: map<string, Node>, addrs: seq<string>, flushCmd: string, k: int)
  {
    && 0 <= k < |addrs|
    && RunFault(nodes, addrs, k, flushCmd).Some?
    && forall j :: 0 <= j < k ==> RunFault(nodes, addrs, j, flushCmd).None?
  }

  /** The fleet a run leaves when pass `i` stops it: the passes before it done
      and, at the first version-3 node, the relaxing write carried out at the
      nodes before the one that refused it, or at every node when the flush
      itself was refused. */
  function FaultState(nodes: map<string, Node>, addrs: seq<string>, i: int, flushCmd: string, seen: bool, ret: string): map<string, Node>
    requires 0 <= i < |addrs|
  {
    if !seen && IsV3(nodes, addrs[i]) then
      var r := FirstRefusal(nodes, addrs);
      if r < |addrs| then WithConfig(Progress(nodes, addrs, addrs[..i], flushCmd, false, ret), addrs[..r], TimeoutKey, RelaxedTimeout)
      else Progress(nodes, addrs, addrs[..i], flushCmd, true, RelaxedTimeout)
    else Progress(nodes, addrs, addrs[..i], flushCmd, seen, ret)
  }

  /** The ClusterConfigSet call that relaxes the timeout. */
  const Relaxing: (string, string) := (TimeoutKey, RelaxedTimeout)

  /** The ClusterConfigSet calls of the first `k` passes when each of them
      completes: none before the first version-3 node, the relaxing call at
      it, and one call writing `ret` back at the end of every pass from it on. */
  function RunCalls(nodes: map<string, Node>, addrs: seq<string>, k: int, ret: string): seq<(string, string)>
  {
    var f := FirstV3(nodes, addrs);
    if f < k then [Relaxing] + seq(k - f, _ => (TimeoutKey, ret)) else []
  }

  /** The fleet once the nodes at `done` have had their pass and, when
      `relaxed`, the timeout at every address has been set to `timeout`. */
  function Progress(nodes: map<string, Node>, addrs: seq<string>, done: seq<string>, flushCmd: string, relaxed: bool, timeout: string): map<string, Node>
  {
    map a | a in nodes :: nodes[a].(
      flushed := nodes[a].flushed || (a in done && Flushes(nodes[a].version, flushCmd)),
      config := if relaxed && a in addrs then nodes[a].config[TimeoutKey := timeout] else nodes[a].config)
  }

  /** The fleet after a completed run: every node the run flushes is flushed
      and, when a version-3 node made the run relax the timeout, every
      timeout holds the value first read. */
  function AfterFlush(nodes: map<string, Node>, addrs: seq<string>, flushCmd: string): map<string, Node>
  {
    Progress(nodes, addrs, addrs, flushCmd, HasV3(nodes, addrs), Settled(nodes, addrs, TimeoutKey))
  }

  /** What any run leaves, complete or not: the same addresses, each node as
      reachable, writable, flushable and versioned as before, nothing but the timeout
      changed in a configuration, nodes outside the list untouched, and the
      flushed nodes exactly those the run flushes among some first `k`
      addresses. */
  predicate Frame(n0: map<string, Node>, n1: map<string, Node>, addrs: seq<string>, flushCmd: string)
  {
    && Kept(n0, n1, addrs)
    && exists k :: 0 <= k <= |addrs| && FlushedUpTo(n0, n1, addrs, flushCmd, k)
  }

  /** Everything but the flushed flags and the timeouts at `addrs` is as in `n0`. */
  predicate Kept(n0: map<string, Node>, n1: map<string, Node>, addrs: seq<string>)
  {
    && n1.Keys == n0.Keys
    && forall a :: a in n1 ==>
         && n1[a].reachable == n0[a].reachable && n1[a].writable == n0[a].writable
         && n1[a].flushable == n0[a].flushable && n1[a].version == n0[a].version
         && n1[a].config - {TimeoutKey} == n0[a].config - {TimeoutKey}
         && (a !in addrs ==> n1[a] == n0[a])
  }

  /** The flushed nodes are those flushed before and those the run flushes among the first `k` addresses. */
  predicate FlushedUpTo(n0: map<string, Node>, n1: map<string, Node>, addrs: seq<string>, flushCmd: string, k: int)
    requires 0 <= k <= |addrs|
  {
    forall a :: a in n1 && a in n0 ==>
      n1[a].flushed == (n0[a].flushed || (a in addrs[..k] && Flushes(n0[a].version, flushCmd)))
  }

  lemma FrameOfProgress(n0: map<string, Node>, addrs: seq<string>, i: int, flushCmd: string, relaxed: bool, timeout: string)
    requires 0 <= i <= |addrs|
    ensures Frame(n0, Progress(n0, addrs, addrs[..i], flushCmd, relaxed, timeout), addrs, flushCmd)
  {
    var n1 := Progress(n0, addrs, addrs[..i], flushCmd, relaxed, timeout);
    forall a | a in n1
      ensures n1[a].config - {TimeoutKey} == n0[a].config - {TimeoutKey}
    {
    }
    assert forall a :: a in addrs[..i] ==> a in addrs;
    assert FlushedUpTo(n0, n1, addrs, flushCmd, i);
  }

  lemma FrameOfWrites(n0: map<string, Node>, n1: map<string, Node>, addrs: seq<string>, flushCmd: string, written: seq<string>, v: string)
    requires Frame(n0, n1, addrs, flushCmd)
    requires forall a :: a in written ==> a in addrs
    ensures Frame(n0, WithConfig(n1, written, TimeoutKey, v), addrs, flushCmd)
  {
    var n2 := WithConfig(n1, written, TimeoutKey, v);
    KeptOfWrites(n0, n1, addrs, written, v);
    var k :| 0 <= k <= |addrs| && FlushedUpTo(n0, n1, addrs, flushCmd, k);
    assert FlushedUpTo(n0, n2, addrs, flushCmd, k);
  }

  /** A run that a pass stops stays inside the frame too. */
  lemma FrameOfFault(n0: map<string, Node>, addrs: seq<string>, i: int, flushCmd: string, seen: bool, ret: string)
    requires 0 <= i < |addrs|
    ensures Frame(n0, FaultState(n0, addrs, i, flushCmd, seen, ret), addrs, flushCmd)
  {
    if !seen && IsV3(n0, addrs[i]) {
      var r := FirstRefusal(n0, addrs);
      if r < |addrs| {
        FrameOfProgress(n0, addrs, i, flushCmd, false, ret);
        assert forall a :: a in addrs[..r] ==> a in addrs;
        FrameOfWrites(n0, Progress(n0, addrs, addrs[..i], flushCmd, false, ret), addrs, flushCmd, addrs[..r], RelaxedTimeout);
      } else {
        FrameOfProgress(n0, addrs, i, flushCmd, true, RelaxedTimeout);
      }
    } else {
      FrameOfProgress(n0, addrs, i, flushCmd, seen, ret);
    }
  }

  lemma KeptOfWrites(n0: map<string, Node>, n1: map<string, Node>, addrs: seq<string>, written: seq<string>, v: string)
    requires Kept(n0, n1, addrs)
    requires forall a :: a in written ==> a in addrs
    ensures Kept(n0, WithConfig(n1, written, TimeoutKey, v), addrs)
  {
    var n2 := WithConfig(n1, written, TimeoutKey, v);
    forall a | a in n2
      ensures n2[a].config - {TimeoutKey} == n0[a].config - {TimeoutKey}
    {
      assert n2[a].config - {TimeoutKey} == n1[a].config - {TimeoutKey};
    }
  }

  /** One pass's flush: the node at `addrs[i]` joins the nodes that have had their pass. */
  lemma FlushStep(n0: map<string, Node>, addrs: seq<string>, i: int, flushCmd: string, relaxed: bool, timeout: string)
    requires 0 <= i < |addrs| && addrs[i] in n0
    ensures var p := Progress(n0, addrs, addrs[..i], flushCmd, relaxed, timeout);
            var a := addrs[i];
            Progress(n0, addrs, addrs[..i + 1], flushCmd, relaxed, timeout) ==
              if Flushes(n0[a].version, flushCmd) then p[a := p[a].(flushed := true)] else p
  {
    assert addrs[..i + 1] == addrs[..i] + [addrs[i]];
  }

  /** Writing `timeout` everywhere overrides any earlier timeout write. */
  lemma RestoreStep(n0: map<string, Node>, addrs: seq<string>, done: seq<string>, flushCmd: string, relaxed: bool, v: string, timeout: string)
    ensures var p := Progress(n0, addrs, done, flushCmd, relaxed, v);
            WithConfig(p, addrs, TimeoutKey, timeout) == Progress(n0, addrs, done, flushCmd, true, timeout)
  {
    var p := Progress(n0, addrs, done, flushCmd, relaxed, v);
    var q := Progress(n0, addrs, done, flushCmd, true, timeout);
    forall a | a in n0
      ensures WithConfig(p, addrs, TimeoutKey, timeout)[a] == q[a]
    {
      if a in addrs {
        assert p[a].config[TimeoutKey := timeout] == n0[a].config[TimeoutKey := timeout];
      }
    }
  }

  /** Progress leaves every node as readable as it was and, once relaxed,
      with `timeout` as the answer at every address; otherwise with the old answers. */
  lemma ProgressAnswers(n0: map<string, Node>, addrs: seq<string>, done: seq<string>, flushCmd: string, relaxed: bool, timeout: string)
    requires ConfigDefined(n0, addrs, TimeoutKey)
    ensures var p := Progress(n0, addrs, done, flushCmd, relaxed, timeout);
            && ConfigDefined(p, addrs, TimeoutKey)
            && (forall a :: a in p ==> p[a].reachable == n0[a].reachable && p[a].writable == n0[a].writable && p[a].flushable == n0[a].flushable && p[a].version == n0[a].version)
            && (relaxed ==> forall a :: a in addrs && Readable(p, a) ==> ValueAt(p, a, TimeoutKey) == timeout)
            && (!relaxed ==> SameAnswers(n0, p, addrs, TimeoutKey))
  {
  }

  /** What the timeout write after a relaxed flush reports, in terms of the
      fleet before the run: it fails only at a node that refuses writes. */
  lemma RestoreOutcome(n0: map<string, Node>, addrs: seq<string>, i: int, flushCmd: string, timeout: string, ret: string, q: map<string, Node>, err: Option<FleetError>)
    requires 0 <= i < |addrs|
    requires ConfigDefined(n0, addrs, TimeoutKey)
    requires var p := Progress(n0, addrs, addrs[..i + 1], flushCmd, true, timeout);
             && (!Consistent(p, addrs, TimeoutKey) ==>
                   && q == p
                   && exists k :: FirstFault(p, addrs, TimeoutKey, k) && FaultAt(p, addrs, TimeoutKey, k) == err)
             && (err.None? <==> Consistent(p, addrs, TimeoutKey) && forall a :: a in addrs ==> Writable(p, a))
             && (err.None? ==> q == WithConfig(p, addrs, TimeoutKey, ret))
             && (Consistent(p, addrs, TimeoutKey) && err.Some? ==>
                   exists k :: && FirstUnwritable(p, addrs, k)
                               && err == Some(WriteFault(p, addrs[k]))
                               && q == WithConfig(p, addrs[..k], TimeoutKey, ret))
    ensures err.None? <==> forall a :: a in addrs ==> Writable(n0, a)
    ensures err.None? ==> q == Progress(n0, addrs, addrs[..i + 1], flushCmd, true, ret)
    ensures err.Some? ==>
              && (exists k :: 0 <= k < |addrs| && !Writable(n0, addrs[k]) && err == Some(WriteFault(n0, addrs[k])))
              && (exists k :: 0 <= k <= |addrs| && q == WithConfig(Progress(n0, addrs, addrs[..i + 1], flushCmd, true, timeout), addrs[..k], TimeoutKey, ret))
  {
    var p := Progress(n0, addrs, addrs[..i + 1], flushCmd, true, timeout);
    ProgressAnswers(n0, addrs, addrs[..i + 1], flushCmd, true, timeout);
    if forall a :: a in addrs ==> Readable(p, a) {
      UniformRead(p, addrs, TimeoutKey, timeout);
    }
    if err.None? {
      RestoreStep(n0, addrs, addrs[..i + 1], flushCmd, true, timeout, ret);
    } else if !Consistent(p, addrs, TimeoutKey) {
      var k :| FirstFault(p, addrs, TimeoutKey, k) && FaultAt(p, addrs, TimeoutKey, k) == err;
      UniformFault(p, addrs, timeout, k);
      assert WithConfig(p, addrs[..0], TimeoutKey, ret) == p;
    }
  }

  /** Some node is on version 3 exactly when a run meets one. */
  lemma HasV3First(nodes: map<string, Node>, addrs: seq<string>)
    ensures HasV3(nodes, addrs) <==> FirstV3(nodes, addrs) < |addrs|
  {
    if HasV3(nodes, addrs) {
      var j :| 0 <= j < |addrs| && IsV3(nodes, addrs[j]);
      assert FirstV3(nodes, addrs) <= j;
    }
  }

  /** A run that gets through every pass has succeeded. */
  lemma AllPassed(nodes: map<string, Node>, addrs: seq<string>, flushCmd: string)
    requires Consistent(nodes, addrs, TimeoutKey)
    requires forall j :: 0 <= j < |addrs| ==> RunFault(nodes, addrs, j, flushCmd).None?
    ensures FlushSucceeds(nodes, addrs, flushCmd)
  {
    forall j | 0 <= j < |addrs|
      ensures PassOk(nodes, addrs[j], flushCmd)
    {
      assert RunFault(nodes, addrs, j, flushCmd).None?;
    }
    HasV3First(nodes, addrs);
    var f := FirstV3(nodes, addrs);
    if f < |addrs| {
      assert RunFault(nodes, addrs, f, flushCmd).None?;
      assert FirstRefusal(nodes, addrs) == |addrs|;
    }
  }

  /** A run whose every pass completed has succeeded and left the fleet
      AfterFlush describes, inside the frame. */
  lemma RunCompletes(n0: map<string, Node>, addrs: seq<string>, flushCmd: string, relaxed: bool, ret: string)
    requires Consistent(n0, addrs, TimeoutKey) && ret == Settled(n0, addrs, TimeoutKey)
    requires relaxed <==> FirstV3(n0, addrs) < |addrs|
    requires forall j :: 0 <= j < |addrs| ==> RunFault(n0, addrs, j, flushCmd).None?
    ensures FlushSucceeds(n0, addrs, flushCmd)
    ensures Progress(n0, addrs, addrs[..|addrs|], flushCmd, relaxed, ret) == AfterFlush(n0, addrs, flushCmd)
    ensures Frame(n0, AfterFlush(n0, addrs, flushCmd), addrs, flushCmd)
  {
    assert addrs[..|addrs|] == addrs;
    AllPassed(n0, addrs, flushCmd);
    HasV3First(n0, addrs);
    FrameOfProgress(n0, addrs, |addrs|, flushCmd, relaxed, ret);
  }

  /** A pass that stops the run means the run does not succeed. */
  lemma FaultFails(nodes: map<string, Node>, addrs: seq<string>, i: int, flushCmd: string, seen: bool)
    requires 0 <= i < |addrs|
    requires PassFault(nodes, addrs, i, flushCmd, seen).Some?
    ensures !FlushSucceeds(nodes, addrs, flushCmd)
  {
    var a := addrs[i];
    if PassOk(nodes, a, flushCmd) {
      var r := FirstRefusal(nodes, addrs);
      assert IsV3(nodes, a) && r < |addrs| && !Writable(nodes, addrs[r]);
      assert HasV3(nodes, addrs);
    }
  }

  /** One more completed pass, where `before` says whether an earlier pass met
      a version-3 node and `after` whether one has been met now: the pass adds
      the relaxing call when it is the first version-3 node, and a write of
      `ret` when it is that node or a later one. */
  lemma RunCallsStep(nodes: map<string, Node>, addrs: seq<string>, i: int, ret: string, before: bool, after: bool)
    requires 0 <= i < |addrs|
    requires before <==> FirstV3(nodes, addrs) < i
    requires after <==> before || IsV3(nodes, addrs[i])
    ensures (!before && IsV3(nodes, addrs[i])) == (FirstV3(nodes, addrs) == i)
    ensures RunCalls(nodes, addrs, i + 1, ret) ==
              RunCalls(nodes, addrs, i, ret) + (if !before && IsV3(nodes, addrs[i]) then [Relaxing] else [])
              + (if after then [(TimeoutKey, ret)] else [])
  {
    var f := FirstV3(nodes, addrs);
    if f < i {
      assert seq(i + 1 - f, _ => (TimeoutKey, ret)) == seq(i - f, _ => (TimeoutKey, ret)) + [(TimeoutKey, ret)];
    }
  }

  lemma CallsRegroup(a: seq<(string, string)>, b: seq<(string, string)>, c: seq<(string, string)>, d: seq<(string, string)>)
    ensures a + b + c + d == a + (b + c + d)
  {
  }

  /** Unless the value first read is itself 1800, the first `k` passes make
      the relaxing call once when they reach a version-3 node, and never otherwise. */
  lemma RelaxingCount(nodes: map<string, Node>, addrs: seq<string>, k: nat, ret: string)
    requires ret != RelaxedTimeout
    ensures multiset(RunCalls(nodes, addrs, k, ret))[Relaxing] == if FirstV3(nodes, addrs) < k then 1 else 0
  {
    var f := FirstV3(nodes, addrs);
    if f < k {
      RepeatMisses(k - f, (TimeoutKey, ret), Relaxing);
    }
  }

  lemma {:induction false} RepeatMisses(n: nat, x: (string, string), y: (string, string))
    requires x != y
    ensures multiset(seq(n, _ => x))[y] == 0
  {
    if n > 0 {
      assert seq(n, _ => x) == seq(n - 1, _ => x) + [x];
      RepeatMisses(n - 1, x, y);
    }
  }

  /** What the timeouts read after a run that pass `k` stops: before the first
      version-3 node they are untouched; at that node, 1800 wherever the
      relaxing write got to; after it, the value first read. */
  lemma FailedTimeouts(nodes: map<string, Node>, addrs: seq<string>, k: int, flushCmd: string)
    requires ConfigDefined(nodes, addrs, TimeoutKey) && Consistent(nodes, addrs, TimeoutKey)
    requires 0 <= k < |addrs|
    ensures var f := FirstV3(nodes, addrs);
            var ret := Settled(nodes, addrs, TimeoutKey);
            var n1 := FaultState(nodes, addrs, k, flushCmd, f < k, ret);
            forall a :: a in addrs ==>
              ValueAt(n1, a, TimeoutKey) == (if f < k then ret else if f == k && a in addrs[..FirstRefusal(nodes, addrs)] then RelaxedTimeout else ValueAt(nodes, a, TimeoutKey))
  {
    var f := FirstV3(nodes, addrs);
    var ret := Settled(nodes, addrs, TimeoutKey);
    var r := FirstRefusal(nodes, addrs);
    ConsistentShape(nodes, addrs, TimeoutKey);
    forall a | a in addrs
      ensures Readable(nodes, a)
    {
      var j :| 0 <= j < |addrs| && addrs[j] == a;
    }
    if f < k {
      ProgressTimeouts(nodes, addrs, addrs[..k], flushCmd, true, ret);
    } else if f == k && r < |addrs| {
      PrefixTimeouts(nodes, addrs, addrs[..k], flushCmd, ret, addrs[..r], RelaxedTimeout);
    } else if f == k {
      assert addrs[..r] == addrs;
      ProgressTimeouts(nodes, addrs, addrs[..k], flushCmd, true, RelaxedTimeout);
    } else {
      ProgressTimeouts(nodes, addrs, addrs[..k], flushCmd, false, ret);
    }
  }

  /** The timeout a listed node answers with after some passes. */
  lemma ProgressTimeouts(nodes: map<string, Node>, addrs: seq<string>, done: seq<string>, flushCmd: string, relaxed: bool, timeout: string)
    ensures forall a :: a in addrs && Readable(nodes, a) ==>
              ValueAt(Progress(nodes, addrs, done, flushCmd, relaxed, timeout), a, TimeoutKey) == if relaxed then timeout else ValueAt(nodes, a, TimeoutKey)
  {
  }

  /** The timeout a listed node answers with after some passes and a write
      of `v` that reached the addresses `w`. */
  lemma PrefixTimeouts(nodes: map<string, Node>, addrs: seq<string>, done: seq<string>, flushCmd: string, timeout: string, w: seq<string>, v: string)
    ensures forall a :: a in addrs && Readable(nodes, a) ==>
              ValueAt(WithConfig(Progress(nodes, addrs, done, flushCmd, false, timeout), w, TimeoutKey, v), a, TimeoutKey) == if a in w then v else ValueAt(nodes, a, TimeoutKey)
  {
  }

  /** Before the first pass nothing has changed. */
  lemma ProgressStart(n0: map<string, Node>, addrs: seq<string>, flushCmd: string, timeout: string)
    ensures Progress(n0, addrs, addrs[..0], flushCmd, false, timeout) == n0
  {
    var p := Progress(n0, addrs, addrs[..0], flushCmd, false, timeout);
    forall a | a in n0
      ensures p[a] == n0[a]
    {
    }
  }

  /** After a completed run every timeout reads as before: untouched when no
      node is on version 3, and otherwise restored to the value the nodes
      agreed on, which is each node's own value when every node had one. */
  lemma RestoredTimeout(nodes: map<string, Node>, addrs: seq<string>, flushCmd: string)
    requires ConfigDefined(nodes, addrs, TimeoutKey)
    requires FlushSucceeds(nodes, addrs, flushCmd)
    requires forall a :: a in addrs ==> ValueAt(nodes, a, TimeoutKey) != ""
    ensures forall a :: a in addrs ==> ValueAt(AfterFlush(nodes, addrs, flushCmd), a, TimeoutKey) == ValueAt(nodes, a, TimeoutKey)
  {
    var relaxed := HasV3(nodes, addrs);
    var ret := Settled(nodes, addrs, TimeoutKey);
    ProgressAnswers(nodes, addrs, addrs, flushCmd, relaxed, ret);
    if relaxed {
      forall a | a in addrs
        ensures ValueAt(nodes, a, TimeoutKey) == ret
      {
        var j :| 0 <= j < |addrs| && addrs[j] == a;
        assert Values(nodes, addrs, TimeoutKey)[0] != "";
        if j > 0 {
          RunRepeats(nodes, addrs, TimeoutKey, 0, j);
        }
      }
    }
  }

  class Fleet {
    var nodes: map<string, Node>
    /** The ClusterConfigSet calls made so far, key and value, in call order. */
    ghost var setCalls: seq<(string, string)>

    constructor (nodes0: map<string, Node>)
      ensures nodes == nodes0 && setCalls == []
    {
      nodes := nodes0;
      setCalls := [];
    }

    /** ClusterConfigGet: every node is asked in order; the first unreachable
        node or inconsistent answer aborts, and later nodes are not asked. */
    method ConfigGet(addrs: seq<string>, key: string) returns (r: Result<string, FleetError>)
      requires ConfigDefined(nodes, addrs, key)
      ensures r.Success? <==> Consistent(nodes, addrs, key)
      ensures r.Success? ==> r.value == Settled(nodes, addrs, key)
      ensures r.Failure? ==> exists k :: FirstFault(nodes, addrs, key, k) && FaultAt(nodes, addrs, key, k) == Some(r.error)
    {
      var ret := "";
      for i := 0 to |addrs|
        invariant forall j :: 0 <= j < i ==> FaultAt(nodes, addrs, key, j).None?
        invariant ret == if i == 0 then "" else ValueAt(nodes, addrs[i - 1], key)
      {
        var addr := addrs[i];
        if addr !in nodes || !nodes[addr].reachable {
          assert FirstFault(nodes, addrs, key, i);
          return Failure(Unreachable(addr));
        }
        var retValue := nodes[addr].config[key];
        if ret != retValue && ret != "" {
          assert FirstFault(nodes, addrs, key, i);
          return Failure(Inconsistent);
        }
        ret := retValue;
      }
      if |addrs| > 0 {
        SettledIsLast(nodes, addrs, key);
      }
      return Success(ret);
    }

    /** ClusterConfigCheck: the same walk as ConfigGet, answering only whether
        the nodes agree. */
    method ConfigCheck(addrs: seq<string>, configArg: string) returns (ok: bool, err: Option<FleetError>)
      requires ConfigDefined(nodes, addrs, configArg)
      ensures ok <==> err.None?
      ensures ok <==> Consistent(nodes, addrs, configArg)
      ensures !ok ==> exists k :: FirstFault(nodes, addrs, configArg, k) && FaultAt(nodes, addrs, configArg, k) == err
    {
      var retValue := "";
      for i := 0 to |addrs|
        invariant forall j :: 0 <= j < i ==> FaultAt(nodes, addrs, configArg, j).None?
        invariant retValue == if i == 0 then "" else ValueAt(nodes, addrs[i - 1], configArg)
      {
        var addr := addrs[i];
        if addr !in nodes || !nodes[addr].reachable {
          assert FirstFault(nodes, addrs, configArg, i);
          return false, Some(Unreachable(addr));
        }
        var argRet := nodes[addr].config[configArg];
        if retValue != argRet && retValue != "" {
          assert FirstFault(nodes, addrs, configArg, i);
          return false, Some(Inconsistent);
        }
        retValue := argRet;
      }
      return true, None;
    }

    /** ClusterConfigSet: nothing is written unless a ConfigGet over the same
        addresses succeeds; then `value` is written at each address in order,
        and the first failing write stops the run with the earlier writes kept. */
    method ConfigSet(addrs: seq<string>, key: string, value: string) returns (err: Option<FleetError>)
      requires ConfigDefined(nodes, addrs, key)
      modifies this
      ensures setCalls == old(setCalls) + [(key, value)]
      ensures !Consistent(old(nodes), addrs, key) ==>
                && nodes == old(nodes)
                && exists k :: FirstFault(old(nodes), addrs, key, k) && FaultAt(old(nodes), addrs, key, k) == err
      ensures err.None? <==> Consistent(old(nodes), addrs, key) && forall a :: a in addrs ==> Writable(old(nodes), a)
      ensures err.None? ==> nodes == WithConfig(old(nodes), addrs, key, value)
      ensures Consistent(old(nodes), addrs, key) && err.Some? ==>
                exists k :: && FirstUnwritable(old(nodes), addrs, k)
                            && err == Some(WriteFault(old(nodes), addrs[k]))
                            && nodes == WithConfig(old(nodes), addrs[..k], key, value)
    {
      setCalls := setCalls + [(key, value)];
      var got := ConfigGet(addrs, key);
      if got.Failure? {
        return Some(got.error);
      }
      err := WriteEach(addrs, key, value);
    }

    /** ClusterConfigSet's loop: `value` is written at each address in order,
        and the first address that does not take the write stops the loop. */
    method WriteEach(addrs: seq<string>, key: string, value: string) returns (err: Option<FleetError>)
      modifies this
      ensures setCalls == old(setCalls)
      ensures err.None? <==> forall a :: a in addrs ==> Writable(old(nodes), a)
      ensures err.None? ==> nodes == WithConfig(old(nodes), addrs, key, value)
      ensures err.Some? ==>
                exists k :: && FirstUnwritable(old(nodes), addrs, k)
                            && err == Some(WriteFault(old(nodes), addrs[k]))
                            && nodes == WithConfig(old(nodes), addrs[..k], key, value)
    {
      for i := 0 to |addrs|
        invariant nodes == WithConfig(old(nodes), addrs[..i], key, value)
        invariant forall j :: 0 <= j < i ==> Writable(old(nodes), addrs[j])
        invariant setCalls == old(setCalls)
      {
        var addr := addrs[i];
        WithConfigKeeps(old(nodes), addrs[..i], key, value, addr);
        if addr !in nodes || !nodes[addr].reachable {
          assert FirstUnwritable(old(nodes), addrs, i);
          return Some(Unreachable(addr));
        }
        if !nodes[addr].writable {
          assert FirstUnwritable(old(nodes), addrs, i);
          return Some(WriteRejected(addr));
        }
        WithConfigStep(old(nodes), addrs, i, key, value);
        nodes := nodes[addr := nodes[addr].(config := nodes[addr].config[key := value])];
      }
      assert addrs[..|addrs|] == addrs;
      forall a | a in addrs
        ensures Writable(old(nodes), a)
      {
        var j :| 0 <= j < |addrs| && addrs[j] == a;
      }
      return None;
    }

    /** ClusterFLUSHALL over the masters and then the slaves of `info`. The
        timeout is read first; each node then gets one pass in order: it must
        answer and report a version. The first version-3 node makes the run
        relax the timeout on every node to 1800 seconds before its flush, and
        from then on every pass ends by writing the timeout first read back to
        every node. The first failure stops the run. */
    method FlushAll(info: ClusterBuild.ClusterInfo, flushCmd: string) returns (err: Option<FleetError>)
      requires ConfigDefined(nodes, info.masters + info.slaves, TimeoutKey)
      modifies this
      ensures Frame(old(nodes), nodes, info.masters + info.slaves, flushCmd)
      ensures !Consistent(old(nodes), info.masters + info.slaves, TimeoutKey) ==>
                && nodes == old(nodes) && setCalls == old(setCalls)
                && exists k :: && FirstFault(old(nodes), info.masters + info.slaves, TimeoutKey, k)
                               && FaultAt(old(nodes), info.masters + info.slaves, TimeoutKey, k) == err
      ensures err.None? <==> FlushSucceeds(old(nodes), info.masters + info.slaves, flushCmd)
      ensures err.None? ==>
                var addrs := info.masters + info.slaves;
                && nodes == AfterFlush(old(nodes), addrs, flushCmd)
                && setCalls == old(setCalls) + RunCalls(old(nodes), addrs, |addrs|, Settled(old(nodes), addrs, TimeoutKey))
      ensures Consistent(old(nodes), info.masters + info.slaves, TimeoutKey) && err.Some? ==>
                var addrs := info.masters + info.slaves;
                var ret := Settled(old(nodes), addrs, TimeoutKey);
                exists k :: && FailsAt(old(nodes), addrs, flushCmd, k)
                            && err == RunFault(old(nodes), addrs, k, flushCmd)
                            && nodes == FaultState(old(nodes), addrs, k, flushCmd, FirstV3(old(nodes), addrs) < k, ret)
                            && setCalls == old(setCalls) + RunCalls(old(nodes), addrs, k, ret)
                                           + (if FirstV3(old(nodes), addrs) == k then [Relaxing] else [])
    {
      var clusterNodes := info.masters + info.slaves;
      var got := ConfigGet(clusterNodes, TimeoutKey);
      ProgressStart(nodes, clusterNodes, flushCmd, "");
      FrameOfProgress(nodes, clusterNodes, 0, flushCmd, false, "");
      if got.Failure? {
        return Some(got.error);
      }
      err := Passes(old(nodes), clusterNodes, flushCmd, got.value);
    }

    /** FlushAll's loop, once the timeout `ret` has been read consistently
        from the unchanged fleet `n0`. */
    method Passes(ghost n0: map<string, Node>, clusterNodes: seq<string>, flushCmd: string, ret: string)
      returns (err: Option<FleetError>)
      requires nodes == n0
      requires ConfigDefined(n0, clusterNodes, TimeoutKey)
      requires Consistent(n0, clusterNodes, TimeoutKey) && ret == Settled(n0, clusterNodes, TimeoutKey)
      modifies this
      ensures Frame(n0, nodes, clusterNodes, flushCmd)
      ensures err.None? <==> FlushSucceeds(n0, clusterNodes, flushCmd)
      ensures err.None? ==>
                && nodes == AfterFlush(n0, clusterNodes, flushCmd)
                && setCalls == old(setCalls) + RunCalls(n0, clusterNodes, |clusterNodes|, ret)
      ensures err.Some? ==>
                exists k :: && FailsAt(n0, clusterNodes, flushCmd, k)
                            && err == RunFault(n0, clusterNodes, k, flushCmd)
                            && nodes == FaultState(n0, clusterNodes, k, flushCmd, FirstV3(n0, clusterNodes) < k, ret)
                            && setCalls == old(setCalls) + RunCalls(n0, clusterNodes, k, ret)
                                           + (if FirstV3(n0, clusterNodes) == k then [Relaxing] else [])
    {
      ProgressStart(n0, clusterNodes, flushCmd, ret);
      var version3 := false;
      for i := 0 to |clusterNodes|
        invariant nodes == Progress(n0, clusterNodes, clusterNodes[..i], flushCmd, version3, ret)
        invariant version3 <==> FirstV3(n0, clusterNodes) < i
        invariant version3 ==> forall a :: a in clusterNodes ==> Writable(n0, a)
        invariant forall j :: 0 <= j < i ==> RunFault(n0, clusterNodes, j, flushCmd).None?
        invariant setCalls == old(setCalls) + RunCalls(n0, clusterNodes, i, ret)
      {
        var e, relaxed := Step(n0, clusterNodes, i, flushCmd, ret, version3, old(setCalls));
        if e.Some? {
          assert FailsAt(n0, clusterNodes, flushCmd, i) && e == RunFault(n0, clusterNodes, i, flushCmd);
          return e;
        }
        version3 := relaxed;
      }
      RunCompletes(n0, clusterNodes, flushCmd, version3, ret);
      return None;
    }

    /** The body of Passes' loop: the pass at `clusterNodes[i]` after `i`
        completed passes, whose ClusterConfigSet calls follow `calls0`. */
    method Step(ghost n0: map<string, Node>, clusterNodes: seq<string>, i: int, flushCmd: string, ret: string, version3: bool,
                ghost calls0: seq<(string, string)>)
      returns (err: Option<FleetError>, relaxed: bool)
      requires 0 <= i < |clusterNodes|
      requires ConfigDefined(n0, clusterNodes, TimeoutKey)
      requires Consistent(n0, clusterNodes, TimeoutKey) && ret == Settled(n0, clusterNodes, TimeoutKey)
      requires nodes == Progress(n0, clusterNodes, clusterNodes[..i], flushCmd, version3, ret)
      requires version3 <==> FirstV3(n0, clusterNodes) < i
      requires version3 ==> forall a :: a in clusterNodes ==> Writable(n0, a)
      requires setCalls == calls0 + RunCalls(n0, clusterNodes, i, ret)
      requires forall j :: 0 <= j < i ==> RunFault(n0, clusterNodes, j, flushCmd).None?
      modifies this
      ensures err == RunFault(n0, clusterNodes, i, flushCmd)
      ensures err.Some? ==>
                && FailsAt(n0, clusterNodes, flushCmd, i)
                && nodes == FaultState(n0, clusterNodes, i, flushCmd, FirstV3(n0, clusterNodes) < i, ret)
                && setCalls == calls0 + RunCalls(n0, clusterNodes, i, ret)
                               + (if FirstV3(n0, clusterNodes) == i then [Relaxing] else [])
                && Frame(n0, nodes, clusterNodes, flushCmd)
                && !FlushSucceeds(n0, clusterNodes, flushCmd)
      ensures err.None? ==>
                && nodes == Progress(n0, clusterNodes, clusterNodes[..i + 1], flushCmd, relaxed, ret)
                && (relaxed <==> FirstV3(n0, clusterNodes) < i + 1)
                && (relaxed ==> forall a :: a in clusterNodes ==> Writable(n0, a))
                && setCalls == calls0 + RunCalls(n0, clusterNodes, i + 1, ret)
                && forall j :: 0 <= j < i + 1 ==> RunFault(n0, clusterNodes, j, flushCmd).None?
    {
      ghost var calls := RunCalls(n0, clusterNodes, i, ret);
      err, relaxed := Pass(n0, clusterNodes, i, flushCmd, ret, version3);
      RunCallsStep(n0, clusterNodes, i, ret, version3, relaxed);
      CallsRegroup(calls0, calls, if !version3 && IsV3(n0, clusterNodes[i]) then [Relaxing] else [],
                   if err.None? && relaxed then [(TimeoutKey, ret)] else []);
      if err.Some? {
        FaultFails(n0, clusterNodes, i, flushCmd, version3);
        FrameOfFault(n0, clusterNodes, i, flushCmd, version3, ret);
      } else {
        forall j | 0 <= j < i + 1
          ensures RunFault(n0, clusterNodes, j, flushCmd).None?
        {
          if j < i {
          }
        }
      }
    }

    /** One pass of FlushAll's loop, at `clusterNodes[i]`, on a fleet that the
        earlier passes turned `n0` into. `version3` says whether an earlier
        pass met a version-3 node; `relaxed` says so after this pass. */
    method Pass(ghost n0: map<string, Node>, clusterNodes: seq<string>, i: int, flushCmd: string, ret: string, version3: bool)
      returns (err: Option<FleetError>, relaxed: bool)
      requires 0 <= i < |clusterNodes|
      requires ConfigDefined(n0, clusterNodes, TimeoutKey)
      requires Consistent(n0, clusterNodes, TimeoutKey) && ret == Settled(n0, clusterNodes, TimeoutKey)
      requires nodes == Progress(n0, clusterNodes, clusterNodes[..i], flushCmd, version3, ret)
      requires version3 ==> forall a :: a in clusterNodes ==> Writable(n0, a)
      modifies this
      ensures err == PassFault(n0, clusterNodes, i, flushCmd, version3)
      ensures relaxed <==> version3 || IsV3(n0, clusterNodes[i])
      ensures setCalls == old(setCalls) + (if !version3 && IsV3(n0, clusterNodes[i]) then [Relaxing] else [])
                          + (if err.None? && relaxed then [(TimeoutKey, ret)] else [])
      ensures err.Some? ==> nodes == FaultState(n0, clusterNodes, i, flushCmd, version3, ret)
      ensures err.None? ==>
                && nodes == Progress(n0, clusterNodes, clusterNodes[..i + 1], flushCmd, relaxed, ret)
                && (relaxed ==> forall a :: a in clusterNodes ==> Writable(n0, a))
    {
      var addr := clusterNodes[i];
      ProgressAnswers(n0, clusterNodes, clusterNodes[..i], flushCmd, version3, ret);
      err, relaxed := None, version3;
      if addr !in nodes || !nodes[addr].reachable {
        return Some(Unreachable(addr)), relaxed;
      }
      var versionPrefix := ParseInt64(Split(nodes[addr].version, '.')[0]);
      if versionPrefix.None? {
        return Some(BadVersion(addr)), relaxed;
      }
      ghost var timeout := ret;
      if versionPrefix.value == 3 && !version3 {
        err := Relax(n0, clusterNodes, i, flushCmd, ret);
        relaxed := true;
        if err.Some? {
          return;
        }
        timeout := RelaxedTimeout;
      }
      err := FlushNode(n0, clusterNodes, i, flushCmd, relaxed, timeout, versionPrefix.value);
      if err.None? && relaxed {
        err := Restore(n0, clusterNodes, i, flushCmd, ret, timeout);
      }
    }

    /** The flush of one pass, by the major version `major` of the node at
        `clusterNodes[i]`: version 3 gets FLUSHALL or its renamed form,
        version 4 and later FLUSHALL ASYNC when the command is FLUSHALL, and
        anything else nothing. A refused flush changes nothing. */
    method FlushNode(ghost n0: map<string, Node>, clusterNodes: seq<string>, i: int, flushCmd: string, relaxed: bool, ghost timeout: string, major: int)
      returns (err: Option<FleetError>)
      requires 0 <= i < |clusterNodes| && Readable(n0, clusterNodes[i]) && Major(n0[clusterNodes[i]].version) == Some(major)
      requires nodes == Progress(n0, clusterNodes, clusterNodes[..i], flushCmd, relaxed, timeout)
      modifies this
      ensures setCalls == old(setCalls)
      ensures var a := clusterNodes[i];
              err == if Flushes(n0[a].version, flushCmd) && !n0[a].flushable then Some(FlushRejected(a)) else None
      ensures err.Some? ==> nodes == old(nodes)
      ensures err.None? ==> nodes == Progress(n0, clusterNodes, clusterNodes[..i + 1], flushCmd, relaxed, timeout)
    {
      var addr := clusterNodes[i];
      FlushStep(n0, clusterNodes, i, flushCmd, relaxed, timeout);
      if major == 3 || (major >= 4 && flushCmd == FlushAllCmd) {
        if !nodes[addr].flushable {
          return Some(FlushRejected(addr));
        }
        nodes := nodes[addr := nodes[addr].(flushed := true)];
      }
      return None;
    }

    /** The relaxing write at the first version-3 node, `clusterNodes[i]`:
        ClusterConfigSet of 1800 over the whole list. The read before it
        succeeds, since no timeout has been written yet, so it fails exactly
        when some node refuses the write, after writing at the nodes before it. */
    method Relax(ghost n0: map<string, Node>, clusterNodes: seq<string>, i: int, flushCmd: string, ret: string)
      returns (err: Option<FleetError>)
      requires 0 <= i < |clusterNodes|
      requires ConfigDefined(n0, clusterNodes, TimeoutKey)
      requires Consistent(n0, clusterNodes, TimeoutKey)
      requires nodes == Progress(n0, clusterNodes, clusterNodes[..i], flushCmd, false, ret)
      modifies this
      ensures setCalls == old(setCalls) + [Relaxing]
      ensures var r := FirstRefusal(n0, clusterNodes);
              && (err.None? <==> r == |clusterNodes|)
              && (err.Some? ==> && err == Some(WriteFault(n0, clusterNodes[r]))
                                && nodes == WithConfig(old(nodes), clusterNodes[..r], TimeoutKey, RelaxedTimeout))
      ensures err.None? ==>
                && nodes == Progress(n0, clusterNodes, clusterNodes[..i], flushCmd, true, RelaxedTimeout)
                && forall a :: a in clusterNodes ==> Writable(n0, a)
    {
      ProgressAnswers(n0, clusterNodes, clusterNodes[..i], flushCmd, false, ret);
      SameRead(n0, nodes, clusterNodes, TimeoutKey);
      ghost var before := nodes;
      err := ConfigSet(clusterNodes, TimeoutKey, RelaxedTimeout);
      ghost var r := FirstRefusal(n0, clusterNodes);
      if err.Some? {
        ghost var k :| FirstUnwritable(before, clusterNodes, k) && err == Some(WriteFault(before, clusterNodes[k]))
                       && nodes == WithConfig(before, clusterNodes[..k], TimeoutKey, RelaxedTimeout);
        assert FirstUnwritable(n0, clusterNodes, k);
        assert k == r;
      } else {
        RestoreStep(n0, clusterNodes, clusterNodes[..i], flushCmd, false, ret, RelaxedTimeout);
        assert forall a :: a in clusterNodes ==> Writable(n0, a);
        NoRefusal(n0, clusterNodes);
      }
    }

    /** The write of the timeout first read, `ret`, that ends every pass once
        the timeout is relaxed: ClusterConfigSet of `ret` over the whole list.
        Every timeout reads the same, so its read fails only at a node that
        does not answer; it succeeds exactly when every node takes the write. */
    method Restore(ghost n0: map<string, Node>, clusterNodes: seq<string>, i: int, flushCmd: string, ret: string, ghost timeout: string)
      returns (err: Option<FleetError>)
      requires 0 <= i < |clusterNodes|
      requires ConfigDefined(n0, clusterNodes, TimeoutKey)
      requires nodes == Progress(n0, clusterNodes, clusterNodes[..i + 1], flushCmd, true, timeout)
      modifies this
      ensures setCalls == old(setCalls) + [(TimeoutKey, ret)]
      ensures err.None? <==> forall a :: a in clusterNodes ==> Writable(n0, a)
      ensures err.None? ==> nodes == Progress(n0, clusterNodes, clusterNodes[..i + 1], flushCmd, true, ret)
      ensures err.Some? ==>
                && (exists k :: 0 <= k < |clusterNodes| && !Writable(n0, clusterNodes[k]) && err == Some(WriteFault(n0, clusterNodes[k])))
                && (exists k :: 0 <= k <= |clusterNodes| && nodes == WithConfig(old(nodes), clusterNodes[..k], TimeoutKey, ret))
    {
      ProgressAnswers(n0, clusterNodes, clusterNodes[..i + 1], flushCmd, true, timeout);
      err := ConfigSet(clusterNodes, TimeoutKey, ret);
      RestoreOutcome(n0, clusterNodes, i, flushCmd, timeout, ret, nodes, err);
    }
  }
}
