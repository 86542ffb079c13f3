/** The depth-first search for prerequisite cycles. */
module CheckpointCycles {
  import opened Sequences
  import opened Graphs
  import opened CheckpointRules

  class CycleSearch {
    const checkpointsById: map<string, Checkpoint>
    ghost const graph: Graph := GraphOf(checkpointsById)
    var visiting: set<string>
    var visited: set<string>
    var reported: set<string>
    var findings: seq<Finding>
    ghost var order: seq<string>  // the finished checkpoints, in order of completion

    ghost predicate Valid()
      reads this
    {
      visiting !! visited && visiting <= graph.Keys && visited <= graph.Keys &&
      Distinct(order) && ToSet(order) == visited &&
      (findings == [] ==> SuccessorsFirst(graph, order)) &&
      GenuineCycles(graph, findings) &&
      (forall f | f in findings :: CycleKey(f.cycle) in reported) &&
      (findings == [] ==> reported == {})
    }

    constructor (checkpointsById: map<string, Checkpoint>)
      ensures Valid() && this.checkpointsById == checkpointsById
      ensures visiting == {} && visited == {} && findings == []
    {
      this.checkpointsById := checkpointsById;
      visiting, visited, reported, findings, order := {}, {}, {}, [], [];
    }

    /** A checkpoint met while it is being visited closes a cycle, reported once per set of checkpoints. */
    method ReportCycle(id: string, ancestry: seq<string>)
      requires Valid() && Walk(graph, ancestry + [id]) && id in ancestry
      modifies this`reported, this`findings
      ensures Valid() && old(findings) <= findings && findings != []
    {
      var cycleStart := IndexOf(ancestry, id);
      var cycle := ancestry[if cycleStart < 0 then 0 else cycleStart..] + [id];
      ClosingWalk(graph, ancestry, id, cycleStart);
      var key := CycleKey(cycle);
      if key !in reported {
        var f := Report(PrerequisiteCycle, Topology, id, "").(cycle := cycle);
        AddCycle(graph, findings, f);
        AddKey(findings, f, reported);
        reported := reported + {key};
        findings := findings + [f];
      }
    }

    method Visit(id: string, ancestry: seq<string>)
      requires Valid()
      requires Walk(graph, ancestry + [id]) && Distinct(ancestry) && visiting == ToSet(ancestry)
      modifies this
      ensures Valid() && visiting == old(visiting) && old(visited) <= visited
      ensures old(findings) <= findings && old(order) <= order
      ensures findings == [] && id in graph ==> id in visited
      decreases graph.Keys - visiting, 0
    {
      if id in visited { return; }
      if id in visiting {
        ReportCycle(id, ancestry);
        return;
      }
      if id !in checkpointsById { return; }
      visiting := visiting + {id};
      VisitAll(id, ancestry, checkpointsById[id].prerequisites);
      Finish(id);
    }

    /** The prerequisites of a checkpoint that is being visited, one after another. */
    method VisitAll(id: string, ancestry: seq<string>, prerequisites: seq<string>)
      requires Valid() && id in checkpointsById && prerequisites == checkpointsById[id].prerequisites
      requires Walk(graph, ancestry + [id]) && Distinct(ancestry) && id !in ancestry
      requires visiting == ToSet(ancestry) + {id}
      modifies this
      ensures Valid() && visiting == old(visiting) && old(visited) <= visited
      ensures old(findings) <= findings && old(order) <= order
      ensures findings == [] ==> forall u | u in prerequisites && u in graph :: u in visited
      decreases graph.Keys - visiting, 1
    {
      var i := 0;
      while i < |prerequisites|
        invariant 0 <= i <= |prerequisites|
        invariant Valid() && visiting == old(visiting) && old(visited) <= visited
        invariant old(findings) <= findings && old(order) <= order
        invariant findings == [] ==> forall u | u in prerequisites[..i] && u in graph :: u in visited
      {
        var prerequisite := prerequisites[i];
        if prerequisite in checkpointsById {
          ExtendAncestry(graph, ancestry, id, prerequisite);
          Visit(prerequisite, ancestry + [id]);
        }
        i := i + 1;
      }
      assert prerequisites[..i] == prerequisites;
    }

    /** The checkpoint is done; while nothing is found, its prerequisites are done already. */
    method Finish(id: string)
      requires Valid() && id in visiting
      requires findings == [] ==> forall u | u in Next(graph, id) && u in graph :: u in visited
      modifies this`visiting, this`visited, this`order
      ensures Valid() && visiting == old(visiting) - {id} && visited == old(visited) + {id}
      ensures order == old(order) + [id]
    {
      visiting := visiting - {id};
      visited := visited + {id};
      FinishOrder(graph, order, id, findings == []);
      order := order + [id];
    }

    /** `cycleFindings`: visit every declared checkpoint, in declaration order. */
    method Run(keys: seq<string>)
      requires Valid() && visiting == {} && visited == {} && findings == []
      requires ToSet(keys) == graph.Keys
      modifies this
      ensures CycleReport(graph, findings)
      ensures findings == [] ==> TopologicalOrder(graph, order)
    {
      var i := 0;
      while i < |keys|
        invariant 0 <= i <= |keys|
        invariant Valid() && visiting == {}
        invariant findings == [] ==> forall k | k in keys[..i] :: k in visited
      {
        assert keys[i] in ToSet(keys);
        Visit(keys[i], []);
        i := i + 1;
      }
      assert keys[..i] == keys;
      if findings == [] {
        assert forall k | k in graph :: k in ToSet(keys) && k in keys;
        assert TopologicalOrder(graph, order);
        TopologicalImpliesAcyclic(graph, order);
      } else {
        assert ClosedWalk(graph, findings[0].cycle);
      }
    }
  }

  /** A checkpoint met again is on the path to itself, so the path from there on closes. */
  lemma ClosingWalk(g: Graph, ancestry: seq<string>, id: string, start: int)
    requires Walk(g, ancestry + [id]) && id in ancestry && start == IndexOf(ancestry, id)
    ensures 0 <= start && ClosedWalk(g, ancestry[start..] + [id]) && (ancestry[start..] + [id])[0] == id
  {
    var w, c := ancestry + [id], ancestry[start..] + [id];
    forall i | 0 <= i < |c| - 1 ensures c[i + 1] in Next(g, c[i]) {
      assert c[i] == w[start + i] && c[i + 1] == w[start + i + 1];
    }
  }

  lemma AddCycle(g: Graph, findings: seq<Finding>, f: Finding)
    requires GenuineCycles(g, findings)
    requires f == Report(PrerequisiteCycle, Topology, f.checkpointId, "").(cycle := f.cycle)
    requires ClosedWalk(g, f.cycle) && f.cycle[0] == f.checkpointId
    requires forall h | h in findings :: CycleKey(h.cycle) != CycleKey(f.cycle)
    ensures GenuineCycles(g, findings + [f])
  {
    assert forall h :: h in findings + [f] <==> h in findings || h == f;
    var longer := findings + [f];
    forall i, j | 0 <= i < j < |longer| ensures CycleKey(longer[i].cycle) != CycleKey(longer[j].cycle) {
      if j == |findings| { assert findings[i] in findings; }
    }
  }

  lemma AddKey(findings: seq<Finding>, f: Finding, reported: set<string>)
    requires forall h | h in findings :: CycleKey(h.cycle) in reported
    ensures forall h | h in findings + [f] :: CycleKey(h.cycle) in reported + {CycleKey(f.cycle)}
  {
  }

  lemma ExtendAncestry(g: Graph, ancestry: seq<string>, id: string, next: string)
    requires Walk(g, ancestry + [id]) && Distinct(ancestry) && id !in ancestry && next in Next(g, id)
    ensures Walk(g, ancestry + [id] + [next]) && Distinct(ancestry + [id])
    ensures ToSet(ancestry + [id]) == ToSet(ancestry) + {id}
  {
    var w := ancestry + [id] + [next];
    forall i | 0 <= i < |w| - 1 ensures w[i + 1] in Next(g, w[i]) {
      if i < |ancestry| { assert w[i] == (ancestry + [id])[i] && w[i + 1] == (ancestry + [id])[i + 1]; }
    }
  }

  lemma FinishOrder(g: Graph, order: seq<string>, id: string, clean: bool)
    requires Distinct(order) && id !in order && id in g
    requires clean ==> SuccessorsFirst(g, order) && forall u | u in g[id] && u in g :: u in order
    ensures Distinct(order + [id]) && ToSet(order + [id]) == ToSet(order) + {id}
    ensures clean ==> SuccessorsFirst(g, order + [id])
  {
    if clean {
      var longer := order + [id];
      forall i | 0 <= i < |longer|
        ensures forall u | u in Next(g, longer[i]) && u in g :: u in longer[..i]
      {
        if i < |order| { assert longer[..i] == order[..i]; } else { assert longer[..i] == order; }
      }
    }
  }
}
