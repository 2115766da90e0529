/**
 Moving the master of a replication cluster: change_master of mariadb_nodes.cpp, on the
 replication state of every node.
 */
module Replication {
  import opened Options

  /** A place in a master's binlog. */
  datatype Position = Position(file: nat, pos: nat)

  /** Whose binlog a slave reads, and from where it was told to start. */
  datatype Source = Source(master: nat, start: Position)

  /** source stays configured when the slave threads are stopped; binlog is "show master status". */
  datatype Node = Node(source: Option<Source>, running: bool, binlog: Position)

  const FIRST_POSITION := Position(1, 4)

  /** The node replicates from the master. */
  predicate Follows(node: Node, master: nat) {
    node.running && node.source.Some? && node.source.value.master == master
  }

  /** A running star: the root replicates from nobody, and every other node from the root. */
  predicate Star(nodes: seq<Node>, root: nat) {
    && root < |nodes| && !nodes[root].running
    && forall i :: 0 <= i < |nodes| && i != root ==> Follows(nodes[i], root)
  }

  /** Every node but the root was told to start at the same place of the root's binlog. */
  predicate Aligned(nodes: seq<Node>, root: nat, start: Position) {
    forall i :: 0 <= i < |nodes| && i != root ==> nodes[i].source == Some(Source(root, start))
  }

  /** Where the binlog of the new master stands when its status is read. */
  function Recorded(nodes: seq<Node>, newMaster: nat, oldMaster: nat, granted: nat): Position
    requires newMaster < |nodes|
  {
    if newMaster == oldMaster then FIRST_POSITION
    else Position(nodes[newMaster].binlog.file, nodes[newMaster].binlog.pos + granted)
  }

  class Cluster {
    var nodes: seq<Node>

    constructor (nodes: seq<Node>)
      ensures this.nodes == nodes
    {
      this.nodes := nodes;
    }

    method StopSlave(i: nat)
      requires i < |nodes|
      modifies this
      ensures nodes == old(nodes)[i := old(nodes)[i].(running := false)]
    {
      nodes := nodes[i := nodes[i].(running := false)];
    }

    /** "change master to ...; start slave;" - refused, as a whole, while slave threads are running. */
    method SetupSlave(i: nat, source: Source)
      requires i < |nodes|
      modifies this
      ensures nodes ==
        if old(nodes)[i].running then old(nodes)
        else old(nodes)[i := old(nodes)[i].(source := Some(source), running := true)]
    {
      if !nodes[i].running {
        nodes := nodes[i := nodes[i].(source := Some(source))];
        nodes := nodes[i := nodes[i].(running := true)];
      }
    }

    /** granted is what the statement that creates the replication user adds to the binlog. */
    method ChangeMaster(newMaster: nat, oldMaster: nat, granted: nat)
      requires newMaster < |nodes| && oldMaster < |nodes|
      modifies this
      ensures |nodes| == old(|nodes|)
      ensures nodes[newMaster].running <==> newMaster == oldMaster && old(nodes[oldMaster].running)
      ensures nodes[newMaster].source == old(nodes[newMaster].source)
      ensures nodes[newMaster].binlog == Recorded(old(nodes), newMaster, oldMaster, granted)
      ensures forall i :: 0 <= i < |nodes| ==>
        nodes[i].binlog ==
          if i == oldMaster then Position(1, 4)
          else if i == newMaster then Position(old(nodes[i]).binlog.file, old(nodes[i]).binlog.pos + granted)
          else old(nodes[i].binlog)
      ensures forall i :: 0 <= i < |nodes| && i != newMaster ==>
        nodes[i].running && nodes[i].source ==
          if i == oldMaster && old(nodes[i].running) then old(nodes[i].source)
          else Some(Source(newMaster, Recorded(old(nodes), newMaster, oldMaster, granted)))
    {
      var i := 0;
      while i < |nodes|
        invariant 0 <= i <= |nodes| == old(|nodes|)
        invariant forall j :: 0 <= j < |nodes| ==>
          nodes[j] == if j < i && j != oldMaster then old(nodes[j]).(running := false) else old(nodes[j])
      {
        if i != oldMaster {
          StopSlave(i);
        }
        i := i + 1;
      }
      var binlog := nodes[newMaster].binlog;
      nodes := nodes[newMaster := nodes[newMaster].(binlog := Position(binlog.file, binlog.pos + granted))];
      nodes := nodes[oldMaster := nodes[oldMaster].(binlog := FIRST_POSITION)];
      var log := nodes[newMaster].binlog;
      ghost var stopped := nodes;
      i := 0;
      while i < |nodes|
        invariant 0 <= i <= |nodes| == old(|nodes|)
        invariant forall j :: 0 <= j < |nodes| ==>
          nodes[j] == if j < i && j != newMaster && !stopped[j].running
                      then stopped[j].(source := Some(Source(newMaster, log)), running := true) else stopped[j]
      {
        if i != newMaster {
          SetupSlave(i, Source(newMaster, log));
        }
        i := i + 1;
      }
    }

    /**
     From any state at all: the result is a running star at the new master, aligned at the
     position that was recorded, exactly if the old master was not running as a slave itself
     (or, being somebody else, already reads the new master from that very position). From a
     running star at the old master it therefore always is.
     */
    method MoveMaster(newMaster: nat, oldMaster: nat, granted: nat) returns (ghost start: Position)
      requires newMaster < |nodes| && oldMaster < |nodes|
      modifies this
      ensures |nodes| == old(|nodes|) && start == nodes[newMaster].binlog
      ensures start == if newMaster == oldMaster then Position(1, 4)
        else Position(old(nodes[newMaster]).binlog.file, old(nodes[newMaster]).binlog.pos + granted)
      ensures newMaster != oldMaster ==> nodes[oldMaster].binlog == Position(1, 4)
      ensures Star(nodes, newMaster) && Aligned(nodes, newMaster, start)
        <==> (!old(nodes[oldMaster].running)
          || (newMaster != oldMaster && old(nodes[oldMaster].source) == Some(Source(newMaster, start))))
      ensures old(Star(nodes, oldMaster)) ==> Star(nodes, newMaster) && Aligned(nodes, newMaster, start)
    {
      ChangeMaster(newMaster, oldMaster, granted);
      start := nodes[newMaster].binlog;
      assert nodes[oldMaster].running <==> newMaster != oldMaster || old(nodes[oldMaster].running);
    }

    /** There and back again: the star at the old master is restored. */
    method MoveAndReturn(newMaster: nat, oldMaster: nat, granted: nat, granted': nat) returns (ghost start: Position)
      requires newMaster < |nodes| && oldMaster < |nodes| && Star(nodes, oldMaster)
      modifies this
      ensures Star(nodes, oldMaster) && Aligned(nodes, oldMaster, start)
      ensures start == if newMaster == oldMaster then Position(1, 4) else Position(1, 4 + granted')
    {
      start := MoveMaster(newMaster, oldMaster, granted);
      start := MoveMaster(oldMaster, newMaster, granted');
    }
  }

  /** The node reached by following sources for that many hops. */
  function Upstream(nodes: seq<Node>, i: nat, hops: nat): Option<nat>
    decreases hops
  {
    if hops == 0 then Some(i)
    else if i < |nodes| && nodes[i].running && nodes[i].source.Some? then
      Upstream(nodes, nodes[i].source.value.master, hops - 1)
    else None
  }

  /** A star has no replication cycle: from any node there is at most one hop. */
  lemma StarHasNoCycle(nodes: seq<Node>, root: nat, i: nat, hops: nat)
    requires Star(nodes, root) && i < |nodes| && hops > 0
    ensures Upstream(nodes, i, hops) != Some(i)
    ensures hops > 1 ==> Upstream(nodes, i, hops) == None
  {
    if i != root {
      assert Follows(nodes[i], root);
    }
  }
}
