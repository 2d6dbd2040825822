/** ClusterInfoFormat of redis/cluster.go: the nodes of a `CLUSTER NODES`
    reply sorted into master and slave address lists, the id/address maps,
    and one MasterSlaveMap per entry of the temporary map keyed by node id.
    A node's role is decided by an exact flag match (slice.Find). */
module ClusterBuild {
  import opened Results
  import opened Text
  import opened ClusterParse
  import Slice

  /** One value of NodeTmpMap: the address last recorded under the key and the
      slot text a master left there. An entry a slave created has no slot
      text, which Go reads back as the empty string. */
  datatype TmpEntry = TmpEntry(masterAddr: string, slotStr: string)

  datatype MasterSlaveMap = MasterSlaveMap(masterID: string, masterAddr: string, slaveAddr: string, slaveID: string, slotStr: string)

  datatype ClusterInfo = ClusterInfo(
    clusterNodes: seq<ClusterNode>,
    masterSlaveMaps: seq<MasterSlaveMap>,
    masters: seq<string>,
    slaves: seq<string>,
    idToAddr: map<string, string>,
    addrToID: map<string, string>)

  /** What the loop over the nodes has built so far. */
  datatype Topo = Topo(
    masters: seq<string>,
    slaves: seq<string>,
    idToAddr: map<string, string>,
    addrToID: map<string, string>,
    tmp: map<string, TmpEntry>)

  const Start: Topo := Topo([], [], map[], map[], map[])

  predicate IsMaster(n: ClusterNode)
  {
    Slice.Find(n.flags, "master").1
  }

  predicate IsSlave(n: ClusterNode)
  {
    Slice.Find(n.flags, "slave").1
  }

  /** The node's slots joined by single spaces; no slots give "". */
  function SlotStr(n: ClusterNode): string
  {
    Join(n.slots, " ")
  }

  // ---------------------------------------------------------------- the loop as a specification

  /** One pass of the loop body. A master is listed and recorded under its own
      id; when that id had no entry yet the pass ends there (the `continue`),
      so the slave branch is skipped even for a node also flagged slave. */
  function Absorb(t: Topo, n: ClusterNode): Topo
  {
    if IsMaster(n) then
      var t1 := Topo(t.masters + [n.addr], t.slaves, t.idToAddr[n.id := n.addr], t.addrToID[n.addr := n.id],
                     t.tmp[n.id := TmpEntry(n.addr, SlotStr(n))]);
      if n.id !in t.tmp then t1 else SlaveStep(t1, n)
    else SlaveStep(t, n)
  }

  /** The slave branch: the slave is listed, and the entry of its master id
      gets the slave's address, keeping any slot text already there. */
  function SlaveStep(t: Topo, n: ClusterNode): Topo
  {
    if IsSlave(n) then
      var e := if n.masterID in t.tmp then t.tmp[n.masterID].(masterAddr := n.addr) else TmpEntry(n.addr, "");
      Topo(t.masters, t.slaves + [n.addr], t.idToAddr[n.id := n.addr], t.addrToID[n.addr := n.id], t.tmp[n.masterID := e])
    else t
  }

  /** The loop over the nodes, in order. */
  function Accumulate(nodes: seq<ClusterNode>): Topo
  {
    if |nodes| == 0 then Start
    else Absorb(Accumulate(nodes[..|nodes| - 1]), nodes[|nodes| - 1])
  }

  /** The MasterSlaveMap built from the entry under `id`: the slave fields are never filled. */
  function Entry(id: string, e: TmpEntry): MasterSlaveMap
  {
    MasterSlaveMap(id, e.masterAddr, "", "", e.slotStr)
  }

  /** `maps` lists each entry of `tmp` once, in some order. */
  predicate ListsEntries(maps: seq<MasterSlaveMap>, tmp: map<string, TmpEntry>)
  {
    && (forall m :: m in maps ==> m.masterID in tmp && m == Entry(m.masterID, tmp[m.masterID]))
    && (forall id :: id in tmp ==> Entry(id, tmp[id]) in maps)
    && (forall i, j :: 0 <= i < j < |maps| ==> maps[i].masterID != maps[j].masterID)
  }

  // ---------------------------------------------------------------- the method

  /** ClusterInfoFormat: a parse error is passed on; otherwise the nodes are
      absorbed one by one into the lists and maps, and the temporary map is
      turned into MasterSlaveMaps in an order Go leaves unspecified. */
  method ClusterInfoFormat(nodeStr: string) returns (r: Result<ClusterInfo, ParseError>)
    requires WellShaped(nodeStr)
    ensures ParseReport(nodeStr).Failure? ==> r == Failure(ParseReport(nodeStr).error)
    ensures ParseReport(nodeStr).Success? ==>
              var nodes := ParseReport(nodeStr).value;
              var t := Accumulate(nodes);
              && r.Success?
              && r.value.clusterNodes == nodes
              && r.value.masters == t.masters && r.value.slaves == t.slaves
              && r.value.idToAddr == t.idToAddr && r.value.addrToID == t.addrToID
              && ListsEntries(r.value.masterSlaveMaps, t.tmp)
  {
    var parsed := GetNodes(nodeStr);
    if parsed.Failure? {
      return Failure(parsed.error);
    }
    var nodes := parsed.value;
    var t := Absorbed(nodes);
    var maps := MasterSlaveMaps(t.tmp);
    r := Success(ClusterInfo(nodes, maps, t.masters, t.slaves, t.idToAddr, t.addrToID));
  }

  /** The `range ClusterNodes` loop, updating the lists and maps in place. */
  method Absorbed(nodes: seq<ClusterNode>) returns (t: Topo)
    ensures t == Accumulate(nodes)
  {
    var masters: seq<string> := [];
    var slaves: seq<string> := [];
    var idToAddr: map<string, string> := map[];
    var addrToID: map<string, string> := map[];
    var tmp: map<string, TmpEntry> := map[];
    for i := 0 to |nodes|
      invariant Topo(masters, slaves, idToAddr, addrToID, tmp) == Accumulate(nodes[..i])
    {
      assert nodes[..i + 1][..i] == nodes[..i];
      var node := nodes[i];
      var (_, isMaster) := Slice.Find(node.flags, "master");
      if isMaster {
        masters := masters + [node.addr];
        idToAddr := idToAddr[node.id := node.addr];
        addrToID := addrToID[node.addr := node.id];
        var slotStr := if |node.slots| > 0 then Join(node.slots, " ") else "";
        if node.id !in tmp {
          tmp := tmp[node.id := TmpEntry(node.addr, slotStr)];
          continue;
        }
        tmp := tmp[node.id := tmp[node.id].(masterAddr := node.addr, slotStr := slotStr)];
      }
      var (_, isSlave) := Slice.Find(node.flags, "slave");
      if isSlave {
        slaves := slaves + [node.addr];
        idToAddr := idToAddr[node.id := node.addr];
        addrToID := addrToID[node.addr := node.id];
        if node.masterID !in tmp {
          tmp := tmp[node.masterID := TmpEntry(node.addr, "")];
          continue;
        }
        tmp := tmp[node.masterID := tmp[node.masterID].(masterAddr := node.addr)];
      }
    }
    assert nodes[..|nodes|] == nodes;
    t := Topo(masters, slaves, idToAddr, addrToID, tmp);
  }

  /** The `range NodeTmpMap` loop: Go visits the keys in an unspecified
      order, modelled as an arbitrary choice of the next key. */
  method MasterSlaveMaps(tmp: map<string, TmpEntry>) returns (maps: seq<MasterSlaveMap>)
    ensures ListsEntries(maps, tmp)
  {
    maps := [];
    var pending := tmp.Keys;
    while pending != {}
      invariant pending <= tmp.Keys
      invariant forall m :: m in maps ==> m.masterID in tmp && m.masterID !in pending && m == Entry(m.masterID, tmp[m.masterID])
      invariant forall id :: id in tmp && id !in pending ==> Entry(id, tmp[id]) in maps
      invariant forall i, j :: 0 <= i < j < |maps| ==> maps[i].masterID != maps[j].masterID
      decreases pending
    {
      var masterID :| masterID in pending;
      var item := tmp[masterID];
      maps := maps + [MasterSlaveMap(masterID, item.masterAddr, "", "", item.slotStr)];
      pending := pending - {masterID};
    }
  }

  // ---------------------------------------------------------------- what the loop builds

  /** A node takes part in the lists when a flag is exactly "master" or "slave". */
  predicate HasRole(n: ClusterNode)
  {
    "master" in n.flags || "slave" in n.flags
  }

  /** No node is flagged both master and slave. */
  predicate NoDualRole(nodes: seq<ClusterNode>)
  {
    forall n :: n in nodes ==> !("master" in n.flags && "slave" in n.flags)
  }

  /** The addresses, in input order, of the nodes that carry `flag`. */
  function AddrsFlagged(nodes: seq<ClusterNode>, flag: string): seq<string>
  {
    if |nodes| == 0 then []
    else
      var front := AddrsFlagged(nodes[..|nodes| - 1], flag);
      if flag in nodes[|nodes| - 1].flags then front + [nodes[|nodes| - 1].addr] else front
  }

  /** What one pass does to the lists and the id/address maps. */
  lemma AbsorbShape(t: Topo, n: ClusterNode)
    ensures Absorb(t, n).masters == if "master" in n.flags then t.masters + [n.addr] else t.masters
    ensures !("master" in n.flags && "slave" in n.flags) ==>
              Absorb(t, n).slaves == if "slave" in n.flags then t.slaves + [n.addr] else t.slaves
    ensures HasRole(n) ==>
              Absorb(t, n).idToAddr == t.idToAddr[n.id := n.addr] && Absorb(t, n).addrToID == t.addrToID[n.addr := n.id]
    ensures !HasRole(n) ==> Absorb(t, n) == t
  {
  }

  /** A node flagged both master and slave whose id has no entry yet is listed
      as a master only: the `continue` skips the slave branch. */
  lemma DualRoleFirstSeen(t: Topo, n: ClusterNode)
    requires "master" in n.flags && "slave" in n.flags && n.id !in t.tmp
    ensures Absorb(t, n).masters == t.masters + [n.addr]
    ensures Absorb(t, n).slaves == t.slaves
    ensures Absorb(t, n).tmp == t.tmp[n.id := TmpEntry(n.addr, SlotStr(n))]
  {
  }

  /** Once its id has an entry, such a node is listed in both lists, and the
      entry of its master id then holds its address. */
  lemma DualRoleSeenBefore(t: Topo, n: ClusterNode)
    requires "master" in n.flags && "slave" in n.flags && n.id in t.tmp
    ensures Absorb(t, n).masters == t.masters + [n.addr]
    ensures Absorb(t, n).slaves == t.slaves + [n.addr]
    ensures Absorb(t, n).tmp[n.masterID].masterAddr == n.addr
  {
  }

  /** Masters lists, in input order, the address of every node flagged master. */
  lemma {:induction false} MastersListed(nodes: seq<ClusterNode>)
    ensures Accumulate(nodes).masters == AddrsFlagged(nodes, "master")
  {
    if |nodes| > 0 {
      MastersListed(nodes[..|nodes| - 1]);
      AbsorbShape(Accumulate(nodes[..|nodes| - 1]), nodes[|nodes| - 1]);
    }
  }

  /** Without dual-role nodes, Slaves lists, in input order, the address of
      every node flagged slave. */
  lemma {:induction false} SlavesListed(nodes: seq<ClusterNode>)
    requires NoDualRole(nodes)
    ensures Accumulate(nodes).slaves == AddrsFlagged(nodes, "slave")
  {
    if |nodes| > 0 {
      var front := nodes[..|nodes| - 1];
      assert forall n :: n in front ==> n in nodes;
      SlavesListed(front);
      AbsorbShape(Accumulate(front), nodes[|nodes| - 1]);
    }
  }

  /** Node `i` is the last node with a role that carries its id. */
  predicate LastWithId(nodes: seq<ClusterNode>, i: int)
  {
    && 0 <= i < |nodes| && HasRole(nodes[i])
    && forall j :: i < j < |nodes| && HasRole(nodes[j]) ==> nodes[j].id != nodes[i].id
  }

  /** Node `i` is the last node with a role that carries its address. */
  predicate LastWithAddr(nodes: seq<ClusterNode>, i: int)
  {
    && 0 <= i < |nodes| && HasRole(nodes[i])
    && forall j :: i < j < |nodes| && HasRole(nodes[j]) ==> nodes[j].addr != nodes[i].addr
  }

  /** IDToAddr has a key for the id of every node with a role, and no other. */
  lemma {:induction false} IdKeys(nodes: seq<ClusterNode>)
    ensures forall id :: id in Accumulate(nodes).idToAddr <==>
              exists i :: 0 <= i < |nodes| && HasRole(nodes[i]) && nodes[i].id == id
  {
    if |nodes| > 0 {
      var front := nodes[..|nodes| - 1];
      IdKeys(front);
      var n := nodes[|nodes| - 1];
      AbsorbShape(Accumulate(front), n);
      forall id | id in Accumulate(nodes).idToAddr
        ensures exists i :: 0 <= i < |nodes| && HasRole(nodes[i]) && nodes[i].id == id
      {
        if HasRole(n) && n.id == id {
          assert nodes[|nodes| - 1] == n;
        } else {
          var i :| 0 <= i < |front| && HasRole(front[i]) && front[i].id == id;
          assert nodes[i] == front[i];
        }
      }
      forall i | 0 <= i < |nodes| && HasRole(nodes[i])
        ensures nodes[i].id in Accumulate(nodes).idToAddr
      {
        if i < |front| {
          assert front[i] == nodes[i];
        }
      }
    }
  }

  /** AddrToID has a key for the address of every node with a role, and no other. */
  lemma {:induction false} AddrKeys(nodes: seq<ClusterNode>)
    ensures forall a :: a in Accumulate(nodes).addrToID <==>
              exists i :: 0 <= i < |nodes| && HasRole(nodes[i]) && nodes[i].addr == a
  {
    if |nodes| > 0 {
      var front := nodes[..|nodes| - 1];
      AddrKeys(front);
      var n := nodes[|nodes| - 1];
      AbsorbShape(Accumulate(front), n);
      forall a | a in Accumulate(nodes).addrToID
        ensures exists i :: 0 <= i < |nodes| && HasRole(nodes[i]) && nodes[i].addr == a
      {
        if HasRole(n) && n.addr == a {
          assert nodes[|nodes| - 1] == n;
        } else {
          var i :| 0 <= i < |front| && HasRole(front[i]) && front[i].addr == a;
          assert nodes[i] == front[i];
        }
      }
      forall i | 0 <= i < |nodes| && HasRole(nodes[i])
        ensures nodes[i].addr in Accumulate(nodes).addrToID
      {
        if i < |front| {
          assert front[i] == nodes[i];
        }
      }
    }
  }

  /** In IDToAddr the last node with a role and a given id wins. */
  lemma {:induction false} IdLastWins(nodes: seq<ClusterNode>)
    ensures forall i :: LastWithId(nodes, i) ==>
              nodes[i].id in Accumulate(nodes).idToAddr && Accumulate(nodes).idToAddr[nodes[i].id] == nodes[i].addr
  {
    if |nodes| > 0 {
      var front := nodes[..|nodes| - 1];
      IdLastWins(front);
      var n := nodes[|nodes| - 1];
      AbsorbShape(Accumulate(front), n);
      forall i | LastWithId(nodes, i)
        ensures nodes[i].id in Accumulate(nodes).idToAddr && Accumulate(nodes).idToAddr[nodes[i].id] == nodes[i].addr
      {
        if i < |front| {
          assert front[i] == nodes[i];
          assert LastWithId(front, i);
        }
      }
    }
  }

  /** In AddrToID the last node with a role and a given address wins. */
  lemma {:induction false} AddrLastWins(nodes: seq<ClusterNode>)
    ensures forall i :: LastWithAddr(nodes, i) ==>
              nodes[i].addr in Accumulate(nodes).addrToID && Accumulate(nodes).addrToID[nodes[i].addr] == nodes[i].id
  {
    if |nodes| > 0 {
      var front := nodes[..|nodes| - 1];
      AddrLastWins(front);
      var n := nodes[|nodes| - 1];
      AbsorbShape(Accumulate(front), n);
      forall i | LastWithAddr(nodes, i)
        ensures nodes[i].addr in Accumulate(nodes).addrToID && Accumulate(nodes).addrToID[nodes[i].addr] == nodes[i].id
      {
        if i < |front| {
          assert front[i] == nodes[i];
          assert LastWithAddr(front, i);
        }
      }
    }
  }

  /** Some node with a role and the same id as node `k` is the last such node. */
  lemma {:induction false} LastIdExists(nodes: seq<ClusterNode>, k: int)
    requires 0 <= k < |nodes| && HasRole(nodes[k])
    ensures exists i :: LastWithId(nodes, i) && nodes[i].id == nodes[k].id
    decreases |nodes| - k
  {
    if !LastWithId(nodes, k) {
      var j :| k < j < |nodes| && HasRole(nodes[j]) && nodes[j].id == nodes[k].id;
      LastIdExists(nodes, j);
    }
  }

  /** Some node with a role and the same address as node `k` is the last such node. */
  lemma {:induction false} LastAddrExists(nodes: seq<ClusterNode>, k: int)
    requires 0 <= k < |nodes| && HasRole(nodes[k])
    ensures exists i :: LastWithAddr(nodes, i) && nodes[i].addr == nodes[k].addr
    decreases |nodes| - k
  {
    if !LastWithAddr(nodes, k) {
      var j :| k < j < |nodes| && HasRole(nodes[j]) && nodes[j].addr == nodes[k].addr;
      LastAddrExists(nodes, j);
    }
  }

  /** Among the nodes with a role, two share an id exactly when they share an address. */
  predicate UniqueIdentity(nodes: seq<ClusterNode>)
  {
    forall i, j :: 0 <= i < |nodes| && 0 <= j < |nodes| && HasRole(nodes[i]) && HasRole(nodes[j]) ==>
      (nodes[i].id == nodes[j].id <==> nodes[i].addr == nodes[j].addr)
  }

  /** With unique ids and addresses, AddrToID undoes IDToAddr. */
  lemma AddrOfIdInverse(nodes: seq<ClusterNode>)
    requires UniqueIdentity(nodes)
    ensures var t := Accumulate(nodes);
            forall id :: id in t.idToAddr ==> t.idToAddr[id] in t.addrToID && t.addrToID[t.idToAddr[id]] == id
  {
    var t := Accumulate(nodes);
    IdKeys(nodes);
    AddrLastWins(nodes);
    IdLastWins(nodes);
    forall id | id in t.idToAddr
      ensures t.idToAddr[id] in t.addrToID && t.addrToID[t.idToAddr[id]] == id
    {
      var k :| 0 <= k < |nodes| && HasRole(nodes[k]) && nodes[k].id == id;
      LastIdExists(nodes, k);
      var i :| LastWithId(nodes, i) && nodes[i].id == id;
      LastAddrExists(nodes, i);
      var j :| LastWithAddr(nodes, j) && nodes[j].addr == nodes[i].addr;
    }
  }

  /** With unique ids and addresses, IDToAddr undoes AddrToID. */
  lemma IdOfAddrInverse(nodes: seq<ClusterNode>)
    requires UniqueIdentity(nodes)
    ensures var t := Accumulate(nodes);
            forall a :: a in t.addrToID ==> t.addrToID[a] in t.idToAddr && t.idToAddr[t.addrToID[a]] == a
  {
    var t := Accumulate(nodes);
    AddrKeys(nodes);
    AddrLastWins(nodes);
    IdLastWins(nodes);
    forall a | a in t.addrToID
      ensures t.addrToID[a] in t.idToAddr && t.idToAddr[t.addrToID[a]] == a
    {
      var k :| 0 <= k < |nodes| && HasRole(nodes[k]) && nodes[k].addr == a;
      LastAddrExists(nodes, k);
      var i :| LastWithAddr(nodes, i) && nodes[i].addr == a;
      LastIdExists(nodes, i);
      var j :| LastWithId(nodes, j) && nodes[j].id == nodes[i].id;
    }
  }

  // ---------------------------------------------------------------- the temporary map

  /** Node `n` writes the entry under `k`: a master under its own id, a slave
      under its master's id. */
  predicate Touches(n: ClusterNode, k: string)
  {
    ("master" in n.flags && n.id == k) || ("slave" in n.flags && n.masterID == k)
  }

  /** Node `i` is the last node that writes the entry under `k`. */
  predicate LastToucher(nodes: seq<ClusterNode>, i: int, k: string)
  {
    && 0 <= i < |nodes| && Touches(nodes[i], k)
    && forall j :: i < j < |nodes| ==> !Touches(nodes[j], k)
  }

  /** Node `i` is the last master with its id. */
  predicate LastMasterWithId(nodes: seq<ClusterNode>, i: int)
  {
    && 0 <= i < |nodes| && "master" in nodes[i].flags
    && forall j :: i < j < |nodes| && "master" in nodes[j].flags ==> nodes[j].id != nodes[i].id
  }

  /** What one pass of a node with at most one role does to the temporary map. */
  lemma AbsorbTmp(t: Topo, n: ClusterNode)
    requires !("master" in n.flags && "slave" in n.flags)
    ensures Absorb(t, n).tmp ==
              if "master" in n.flags then t.tmp[n.id := TmpEntry(n.addr, SlotStr(n))]
              else if "slave" in n.flags then
                t.tmp[n.masterID := if n.masterID in t.tmp then t.tmp[n.masterID].(masterAddr := n.addr) else TmpEntry(n.addr, "")]
              else t.tmp
  {
  }

  /** What one pass does to the slot texts: only a master rewrites one, its
      own; an entry a slave creates starts without one; no entry is removed. */
  lemma AbsorbSlots(t: Topo, n: ClusterNode)
    ensures t.tmp.Keys <= Absorb(t, n).tmp.Keys
    ensures forall k :: k in Absorb(t, n).tmp ==>
              Absorb(t, n).tmp[k].slotStr ==
                if "master" in n.flags && k == n.id then SlotStr(n)
                else if k in t.tmp then t.tmp[k].slotStr
                else ""
  {
  }

  /** Without dual-role nodes, NodeTmpMap has one entry per id of a master
      and per master id named by a slave, and no other. */
  lemma {:induction false} TmpKeys(nodes: seq<ClusterNode>)
    requires NoDualRole(nodes)
    ensures forall k :: k in Accumulate(nodes).tmp <==> exists i :: 0 <= i < |nodes| && Touches(nodes[i], k)
  {
    if |nodes| > 0 {
      var front := nodes[..|nodes| - 1];
      var n := nodes[|nodes| - 1];
      assert forall m :: m in front ==> m in nodes;
      TmpKeys(front);
      AbsorbTmp(Accumulate(front), n);
      forall k | k in Accumulate(nodes).tmp
        ensures exists i :: 0 <= i < |nodes| && Touches(nodes[i], k)
      {
        if !Touches(n, k) {
          var i :| 0 <= i < |front| && Touches(front[i], k);
          assert nodes[i] == front[i];
        }
      }
      forall i, k | 0 <= i < |nodes| && Touches(nodes[i], k)
        ensures k in Accumulate(nodes).tmp
      {
        if i < |front| {
          assert front[i] == nodes[i];
        }
      }
    }
  }

  /** Without dual-role nodes, an entry's masterAddr is the address of the last
      node, master or slave, that wrote it. */
  lemma {:induction false} MasterAddrLastWins(nodes: seq<ClusterNode>)
    requires NoDualRole(nodes)
    ensures forall i, k :: LastToucher(nodes, i, k) ==>
              k in Accumulate(nodes).tmp && Accumulate(nodes).tmp[k].masterAddr == nodes[i].addr
  {
    if |nodes| > 0 {
      var front := nodes[..|nodes| - 1];
      var n := nodes[|nodes| - 1];
      assert forall m :: m in front ==> m in nodes;
      MasterAddrLastWins(front);
      AbsorbTmp(Accumulate(front), n);
      forall i, k | LastToucher(nodes, i, k)
        ensures k in Accumulate(nodes).tmp && Accumulate(nodes).tmp[k].masterAddr == nodes[i].addr
      {
        if i < |front| {
          assert front[i] == nodes[i];
          assert LastToucher(front, i, k);
        }
      }
    }
  }

  /** An entry's slot text is that of the last master with that id. */
  lemma {:induction false} SlotsOfLastMaster(nodes: seq<ClusterNode>)
    ensures forall i :: LastMasterWithId(nodes, i) ==>
              nodes[i].id in Accumulate(nodes).tmp && Accumulate(nodes).tmp[nodes[i].id].slotStr == SlotStr(nodes[i])
  {
    if |nodes| > 0 {
      var front := nodes[..|nodes| - 1];
      var n := nodes[|nodes| - 1];
      SlotsOfLastMaster(front);
      AbsorbSlots(Accumulate(front), n);
      AbsorbShape(Accumulate(front), n);
      forall i | LastMasterWithId(nodes, i)
        ensures nodes[i].id in Accumulate(nodes).tmp && Accumulate(nodes).tmp[nodes[i].id].slotStr == SlotStr(nodes[i])
      {
        if i < |front| {
          assert front[i] == nodes[i];
          assert LastMasterWithId(front, i);
        }
      }
    }
  }

  /** An entry no master wrote has the empty slot text. */
  lemma {:induction false} SlotsWithoutMaster(nodes: seq<ClusterNode>)
    ensures forall k :: k in Accumulate(nodes).tmp && (forall i :: 0 <= i < |nodes| && "master" in nodes[i].flags ==> nodes[i].id != k) ==>
              Accumulate(nodes).tmp[k].slotStr == ""
  {
    if |nodes| > 0 {
      var front := nodes[..|nodes| - 1];
      var n := nodes[|nodes| - 1];
      SlotsWithoutMaster(front);
      AbsorbSlots(Accumulate(front), n);
      forall k | k in Accumulate(nodes).tmp && (forall i :: 0 <= i < |nodes| && "master" in nodes[i].flags ==> nodes[i].id != k)
        ensures Accumulate(nodes).tmp[k].slotStr == ""
      {
        assert forall i :: 0 <= i < |front| ==> front[i] == nodes[i];
      }
    }
  }
}
