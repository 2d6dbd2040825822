/** getNodes of redis/cluster.go: a `CLUSTER NODES` reply, one node per line
    and fields separated by single spaces, read into ClusterNode records.
    The reply is rejected as a whole as soon as one line's ping-sent,
    pong-recv or config-epoch field is not a base-10 64-bit integer. */
module ClusterParse {
  import opened Results
  import opened Text

  /** One line of the reply. `slots` is empty exactly where the source leaves
      its slice nil (a line of exactly eight fields). */
  datatype ClusterNode = ClusterNode(
    id: string,
    addr: string,
    clusterPort: string,
    flags: seq<string>,
    masterID: string,
    pingSent: int,
    pongRecv: int,
    configEpoch: int,
    linkState: string,
    slots: seq<string>)

  /** Which numeric field of which node (by address) failed to parse. */
  datatype ParseError = BadPingSent(addr: string) | BadPongRecv(addr: string) | BadConfigEpoch(addr: string)

  /** The number of occurrences of `c` in `s`. */
  function Count(s: string, c: char): nat
  {
    if |s| == 0 then 0 else (if s[0] == c then 1 else 0) + Count(s[1..], c)
  }

  lemma {:induction false} SplitCount(s: string, c: char)
    ensures |Split(s, c)| == Count(s, c) + 1
  {
    if |s| > 0 {
      SplitCount(s[1..], c);
    }
  }

  /** A joined text starts with its first part, followed by the separator when more parts follow. */
  lemma JoinHead(parts: seq<string>, sep: string)
    requires |parts| >= 1
    ensures |parts| == 1 ==> Join(parts, sep) == parts[0]
    ensures |parts| > 1 ==> Join(parts, sep) == parts[0] + sep + Join(parts[1..], sep)
  {
  }

  /** The fields of a line. */
  function Fields(line: string): seq<string>
  {
    Split(line, ' ')
  }

  /** The lines of a reply, once its leading and trailing newlines are gone. */
  function Lines(report: string): seq<string>
  {
    Split(Trim(report, '\n'), '\n')
  }

  /** The source indexes fields 0 to 7 of every line unchecked. */
  predicate WellShaped(report: string)
  {
    forall line :: line in Lines(report) ==> |Fields(line)| >= 8
  }

  /** `addr` is the text of `field` before its first `@`; `port` is the text
      after it when there is exactly one `@`, and empty otherwise. */
  predicate AddressSplit(field: string, addr: string, port: string)
  {
    && '@' !in addr
    && addr <= field
    && (|addr| < |field| ==> field[|addr|] == '@')
    && (if Count(field, '@') == 1 then field == addr + "@" + port else port == "")
  }

  /** The address field split at `@` as the source does it. */
  function SplitAddress(field: string): (r: (string, string))
    ensures AddressSplit(field, r.0, r.1)
  {
    var parts := Split(field, '@');
    JoinSplit(field, '@');
    SplitCount(field, '@');
    JoinHead(parts, "@");
    assert |parts| > 1 ==> field == parts[0] + ("@" + Join(parts[1..], "@"));
    if |parts| == 2 then
      assert Join(parts[1..], "@") == parts[1];
      (parts[0], parts[1])
    else (parts[0], "")
  }

  /** One line read field by field: the numeric fields are tried in the order
      ping-sent, pong-recv, config-epoch, and the first that fails names the error. */
  function ParseLine(line: string): Result<ClusterNode, ParseError>
    requires |Fields(line)| >= 8
  {
    var f := Fields(line);
    var (addr, port) := SplitAddress(f[1]);
    match ParseInt64(f[4])
    case None => Failure(BadPingSent(addr))
    case Some(ping) =>
      match ParseInt64(f[5])
      case None => Failure(BadPongRecv(addr))
      case Some(pong) =>
        match ParseInt64(f[6])
        case None => Failure(BadConfigEpoch(addr))
        case Some(epoch) =>
          Success(ClusterNode(f[0], addr, port, Split(f[2], ','), f[3], ping, pong, epoch, f[7], f[8..]))
  }

  /** A line is read exactly when its three numeric fields are integers; an
      error names the first numeric field, in line order, that is not; a node
      read holds what `Decodes` describes. */
  lemma ParseLineMeaning(line: string)
    requires |Fields(line)| >= 8
    ensures var f := Fields(line);
            ParseLine(line).Success? <==> ParseInt64(f[4]).Some? && ParseInt64(f[5]).Some? && ParseInt64(f[6]).Some?
    ensures var f := Fields(line); var r := ParseLine(line); var addr := SplitAddress(f[1]).0;
            r.Failure? ==> r.error == if ParseInt64(f[4]).None? then BadPingSent(addr)
                                      else if ParseInt64(f[5]).None? then BadPongRecv(addr)
                                      else BadConfigEpoch(addr)
    ensures ParseLine(line).Success? ==> Decodes(Fields(line), ParseLine(line).value)
  {
    JoinSplit(Fields(line)[2], ',');
  }

  // ---------------------------------------------------------------- printing a line back

  /** A node that can be written as one line of the reply and read back: no
      field holds a space or a newline, the address and the cluster port hold
      no `@`, there is at least one flag and no flag holds a comma, and the
      numbers fit in 64 signed bits. */
  predicate Printable(n: ClusterNode)
  {
    && (forall t :: t in [n.id, n.addr, n.clusterPort, n.masterID, n.linkState] + n.slots + n.flags ==> Plain(t))
    && '@' !in n.addr && '@' !in n.clusterPort
    && |n.flags| >= 1 && (forall fl :: fl in n.flags ==> ',' !in fl)
    && MinInt64 <= n.pingSent <= MaxInt64
    && MinInt64 <= n.pongRecv <= MaxInt64
    && MinInt64 <= n.configEpoch <= MaxInt64
  }

  /** The fields of the line that describes `n`. */
  function FieldsOf(n: ClusterNode): seq<string>
  {
    [n.id, n.addr + "@" + n.clusterPort, Join(n.flags, ","), n.masterID,
     FormatInt(n.pingSent), FormatInt(n.pongRecv), FormatInt(n.configEpoch), n.linkState] + n.slots
  }

  /** The line of the reply that describes `n`. */
  function FormatLine(n: ClusterNode): string
  {
    Join(FieldsOf(n), " ")
  }

  /** A joined text holds a character only if a part or the separator does. */
  lemma {:induction false} JoinAvoids(parts: seq<string>, sep: string, c: char)
    requires c !in sep && forall p :: p in parts ==> c !in p
    ensures c !in Join(parts, sep)
  {
    if |parts| > 1 {
      assert forall p :: p in parts[1..] ==> p in parts;
      JoinAvoids(parts[1..], sep, c);
    }
  }

  /** A formatted integer is a sign and digits only. */
  lemma FormatIntPlain(n: int)
    ensures forall ch :: ch in FormatInt(n) ==> ch == '-' || IsDigit(ch)
  {
    var s := FormatInt(n);
    if n < 0 {
      assert forall k :: 1 <= k < |s| ==> s[k] == FormatNat(-n)[k - 1];
    }
  }

  /** A field that can sit in a line of the reply: no space, no newline. */
  predicate Plain(t: string)
  {
    ' ' !in t && '\n' !in t
  }

  /** No field of a printable node holds a space or a newline. */
  lemma FieldsOfPlain(n: ClusterNode)
    requires Printable(n)
    ensures forall t :: t in FieldsOf(n) ==> Plain(t)
  {
    var f := FieldsOf(n);
    HeadPlain(n);
    forall i | 0 <= i < |f|
      ensures Plain(f[i])
    {
      if i >= 8 {
        assert f[i] == n.slots[i - 8];
        assert f[i] in [n.id, n.addr, n.clusterPort, n.masterID, n.linkState] + n.slots + n.flags;
      }
    }
  }

  /** The eight leading fields of a printable node hold no space or newline. */
  lemma HeadPlain(n: ClusterNode)
    requires Printable(n)
    ensures Plain(n.id) && Plain(n.addr + "@" + n.clusterPort) && Plain(Join(n.flags, ",")) && Plain(n.masterID)
    ensures Plain(FormatInt(n.pingSent)) && Plain(FormatInt(n.pongRecv)) && Plain(FormatInt(n.configEpoch))
    ensures Plain(n.linkState)
  {
    var tokens := [n.id, n.addr, n.clusterPort, n.masterID, n.linkState] + n.slots + n.flags;
    assert forall fl :: fl in n.flags ==> fl in tokens;
    JoinAvoids(n.flags, ",", ' ');
    JoinAvoids(n.flags, ",", '\n');
    FormatIntPlain(n.pingSent);
    FormatIntPlain(n.pongRecv);
    FormatIntPlain(n.configEpoch);
    assert tokens[0] in tokens && tokens[1] in tokens && tokens[2] in tokens;
    assert tokens[3] in tokens && tokens[4] in tokens;
    assert Plain(n.addr) && Plain(n.clusterPort);
    var field := n.addr + "@" + n.clusterPort;
    forall k | 0 <= k < |field|
      ensures field[k] != ' ' && field[k] != '\n'
    {
      if k < |n.addr| {
        assert field[k] == n.addr[k];
      } else if k > |n.addr| {
        assert field[k] == n.clusterPort[k - |n.addr| - 1];
      }
    }
  }

  /** A printable node's line splits back into its fields. */
  lemma FormatLineFields(n: ClusterNode)
    requires Printable(n)
    ensures Fields(FormatLine(n)) == FieldsOf(n)
  {
    FieldsOfPlain(n);
    SplitJoin(FieldsOf(n), ' ');
  }

  /** A printable node's address field splits back into address and cluster port. */
  lemma AddressBack(n: ClusterNode)
    requires Printable(n)
    ensures SplitAddress(n.addr + "@" + n.clusterPort) == (n.addr, n.clusterPort)
  {
    SplitJoin([n.addr, n.clusterPort], '@');
    assert Join([n.addr, n.clusterPort], "@") == n.addr + "@" + n.clusterPort;
  }

  /** Reading a printable node's line gives the node back. */
  lemma ParseFormatLine(n: ClusterNode)
    requires Printable(n)
    ensures |Fields(FormatLine(n))| >= 8
    ensures ParseLine(FormatLine(n)) == Success(n)
  {
    var f := FieldsOf(n);
    FormatLineFields(n);
    AddressBack(n);
    SplitJoin(n.flags, ',');
    ParseFormat(n.pingSent);
    ParseFormat(n.pongRecv);
    ParseFormat(n.configEpoch);
    assert f[8..] == n.slots;
  }

  /** The lines that describe `nodes`, in order. */
  function LinesOf(nodes: seq<ClusterNode>): (lines: seq<string>)
    ensures |lines| == |nodes| && forall i :: 0 <= i < |nodes| ==> lines[i] == FormatLine(nodes[i])
  {
    seq(|nodes|, i requires 0 <= i < |nodes| => FormatLine(nodes[i]))
  }

  /** The reply that lists `nodes`, one line each, ending in a newline as
      Redis ends it. */
  function FormatReport(nodes: seq<ClusterNode>): string
  {
    Join(LinesOf(nodes), "\n") + "\n"
  }

  /** A printable node's line holds no newline and is not empty. */
  lemma FormatLineShape(n: ClusterNode)
    requires Printable(n)
    ensures var l := FormatLine(n); '\n' !in l && |l| > 0
  {
    FieldsOfPlain(n);
    JoinAvoids(FieldsOf(n), " ", '\n');
    JoinHead(FieldsOf(n), " ");
  }

  /** The reply splits back into the nodes' lines. */
  lemma ReportLines(nodes: seq<ClusterNode>)
    requires |nodes| >= 1
    requires forall n :: n in nodes ==> Printable(n)
    ensures Lines(FormatReport(nodes)) == LinesOf(nodes)
  {
    var lines := LinesOf(nodes);
    forall i | 0 <= i < |nodes|
      ensures '\n' !in lines[i] && |lines[i]| > 0
    {
      FormatLineShape(nodes[i]);
    }
    var body := Join(lines, "\n");
    JoinEnds(lines, "\n");
    var last := lines[|lines| - 1];
    assert body[0] == lines[0][0];
    assert body[|body| - 1] == last[|last| - 1];
    TrimOneTrailing(body, '\n');
    SplitJoin(lines, '\n');
  }

  /** Reading the reply that lists printable nodes gives those nodes back, in order. */
  lemma ParseFormatReport(nodes: seq<ClusterNode>)
    requires |nodes| >= 1
    requires forall n :: n in nodes ==> Printable(n)
    ensures WellShaped(FormatReport(nodes))
    ensures ParseReport(FormatReport(nodes)) == Success(nodes)
  {
    var lines := LinesOf(nodes);
    ReportLines(nodes);
    forall i | 0 <= i < |nodes|
      ensures |Fields(lines[i])| >= 8 && ParseLine(lines[i]) == Success(nodes[i])
    {
      ParseFormatLine(nodes[i]);
    }
    CollectAll(LineResults(lines), nodes);
  }

  /** What a node read from the fields `f` holds: the id, master id and link
      state verbatim, the address split at `@`, the flags as the comma-free
      runs of field 2, the three numbers as written, and every field from
      index 8 on as a slot. */
  ghost predicate Decodes(f: seq<string>, n: ClusterNode)
    requires |f| >= 8
  {
    && n.id == f[0]
    && AddressSplit(f[1], n.addr, n.clusterPort)
    && |n.flags| >= 1 && Join(n.flags, ",") == f[2] && (forall fl :: fl in n.flags ==> ',' !in fl)
    && n.masterID == f[3]
    && ParseInt64(f[4]) == Some(n.pingSent)
    && ParseInt64(f[5]) == Some(n.pongRecv)
    && ParseInt64(f[6]) == Some(n.configEpoch)
    && n.linkState == f[7]
    && n.slots == f[8..]
  }

  /** All or nothing: every value when every step succeeded, otherwise the
      error of the first step that failed. */
  function Collect<T, E>(rs: seq<Result<T, E>>): Result<seq<T>, E>
  {
    if |rs| == 0 then Success([])
    else
      match Collect(rs[..|rs| - 1])
      case Failure(e) => Failure(e)
      case Success(vs) =>
        match rs[|rs| - 1]
        case Failure(e) => Failure(e)
        case Success(v) => Success(vs + [v])
  }

  /** Step `k` is the first one that failed. */
  predicate FirstFailure<T, E>(rs: seq<Result<T, E>>, k: int)
  {
    && 0 <= k < |rs|
    && rs[k].Failure?
    && forall j :: 0 <= j < k ==> rs[j].Success?
  }

  /** Collect succeeds exactly when every step does, with the steps' values in
      order; otherwise its error is that of the first step that failed. */
  lemma {:induction false} CollectMeaning<T, E>(rs: seq<Result<T, E>>)
    ensures Collect(rs).Success? <==> forall i :: 0 <= i < |rs| ==> rs[i].Success?
    ensures Collect(rs).Success? ==>
              |Collect(rs).value| == |rs| && forall i :: 0 <= i < |rs| ==> rs[i] == Success(Collect(rs).value[i])
    ensures forall k :: FirstFailure(rs, k) ==> Collect(rs) == Failure(rs[k].error)
  {
    if |rs| > 0 {
      var front := rs[..|rs| - 1];
      CollectMeaning(front);
      assert forall k :: FirstFailure(rs, k) && k < |front| ==> FirstFailure(front, k);
    }
  }

  /** Steps that all succeed collect to their values. */
  lemma CollectAll<T, E>(rs: seq<Result<T, E>>, vs: seq<T>)
    requires |rs| == |vs| && forall i :: 0 <= i < |rs| ==> rs[i] == Success(vs[i])
    ensures Collect(rs) == Success(vs)
  {
    CollectMeaning(rs);
    assert Collect(rs).value == vs;
  }

  /** One more step after a prefix that succeeded. */
  lemma CollectStep<T, E>(rs: seq<Result<T, E>>, i: int)
    requires 0 <= i < |rs| && Collect(rs[..i]).Success?
    ensures Collect(rs[..i + 1]) == if rs[i].Failure? then Failure(rs[i].error) else Success(Collect(rs[..i]).value + [rs[i].value])
  {
    assert rs[..i + 1][..i] == rs[..i];
  }

  /** Once a prefix of the steps fails, further steps keep its error. */
  lemma {:induction false} FailureSticks<T, E>(rs: seq<Result<T, E>>, k: nat)
    requires k <= |rs|
    requires Collect(rs[..k]).Failure?
    ensures Collect(rs) == Collect(rs[..k])
    decreases |rs| - k
  {
    if k < |rs| {
      assert rs[..k + 1][..k] == rs[..k];
      FailureSticks(rs, k + 1);
    } else {
      assert rs[..k] == rs;
    }
  }

  /** The loop of getNodes as a specification: each line read on its own,
      then collected all or nothing. */
  function ParseLines(lines: seq<string>): Result<seq<ClusterNode>, ParseError>
    requires forall line :: line in lines ==> |Fields(line)| >= 8
  {
    Collect(LineResults(lines))
  }

  /** The result of reading each line. */
  function LineResults(lines: seq<string>): (rs: seq<Result<ClusterNode, ParseError>>)
    requires forall line :: line in lines ==> |Fields(line)| >= 8
    ensures |rs| == |lines| && forall i :: 0 <= i < |lines| ==> rs[i] == ParseLine(lines[i])
  {
    seq(|lines|, i requires 0 <= i < |lines| => ParseLine(lines[i]))
  }

  /** getNodes as a specification. */
  function ParseReport(report: string): Result<seq<ClusterNode>, ParseError>
    requires WellShaped(report)
  {
    ParseLines(Lines(report))
  }

  /** getNodes: strip the newlines at both ends, then read the lines one by
      one, appending each node, and give up at the first line that fails. */
  method GetNodes(nodesStr: string) returns (r: Result<seq<ClusterNode>, ParseError>)
    requires WellShaped(nodesStr)
    ensures r == ParseReport(nodesStr)
  {
    var trimmed := Trim(nodesStr, '\n');
    var lines := Split(trimmed, '\n');
    var nodes: seq<ClusterNode> := [];
    ghost var results := LineResults(lines);
    for i := 0 to |lines|
      invariant Collect(results[..i]) == Success(nodes)
    {
      var node := ParseLine(lines[i]);
      CollectStep(results, i);
      assert node == results[i];
      if node.Failure? {
        r := Failure(node.error);
        FailureSticks(results, i + 1);
        return;
      }
      nodes := nodes + [node.value];
    }
    assert results[..|lines|] == results;
    r := Success(nodes);
  }
}
