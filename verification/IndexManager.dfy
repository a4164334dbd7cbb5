// The separate adjacency index (src/storage/simple_index_manager.cpp:68-131).
module IndexManager {
  import opened Adjacency

  class SimpleIndexManager {
    var outgoing: Lists
    var incoming: Lists
    var endpoints: map<EdgeId, Ends>

    ghost predicate Valid()
      reads this
    {
      ListedByStart(outgoing, endpoints) && ListedByEnd(incoming, endpoints)
    }

    constructor ()
      ensures Valid() && endpoints == map[] && outgoing == map[] && incoming == map[]
    {
      outgoing, incoming, endpoints := map[], map[], map[];
    }

    method AddEdge(from: NodeId, to: NodeId, e: EdgeId)
      modifies this
      ensures outgoing == Pushed(old(outgoing), from, e) && incoming == Pushed(old(incoming), to, e)
      ensures Listed(outgoing, from) == Listed(old(outgoing), from) + [e] && Listed(incoming, to) == Listed(old(incoming), to) + [e]
      ensures endpoints == old(endpoints)[e := Ends(from, to)]
      ensures old(Valid()) && e !in old(endpoints) ==> Valid()
    {
      if e !in endpoints && ListedByStart(outgoing, endpoints) && ListedByEnd(incoming, endpoints) {
        PushByStart(outgoing, endpoints, e, Ends(from, to));
        PushByEnd(incoming, endpoints, e, Ends(from, to));
      }
      outgoing := Pushed(outgoing, from, e);
      incoming := Pushed(incoming, to, e);
      endpoints := endpoints[e := Ends(from, to)];
    }

    method RemoveEdge(from: NodeId, to: NodeId, e: EdgeId)
      modifies this
      ensures outgoing == Removed(old(outgoing), from, e) && incoming == Removed(old(incoming), to, e)
      ensures endpoints == old(endpoints) - {e}
      ensures old(Valid()) && e in old(endpoints) && old(endpoints)[e] == Ends(from, to) ==> Valid()
    {
      if e in endpoints && endpoints[e] == Ends(from, to) && ListedByStart(outgoing, endpoints) && ListedByEnd(incoming, endpoints) {
        RemoveByStart(outgoing, endpoints, e);
        RemoveByEnd(incoming, endpoints, e);
      }
      outgoing := Removed(outgoing, from, e);
      incoming := Removed(incoming, to, e);
      endpoints := endpoints - {e};
    }

    method GetAdjacentNodes(u: NodeId) returns (adjacent: seq<NodeId>)
      ensures adjacent == NeighboursOf(outgoing, incoming, endpoints, u)
      ensures Valid() ==> IsNeighbourList(endpoints, u, adjacent)
    {
      adjacent := [];
      adjacent := Collect(Listed(outgoing, u), u, adjacent);
      adjacent := Collect(Listed(incoming, u), u, adjacent);
      assert adjacent == Others(endpoints, Listed(outgoing, u), u) + Others(endpoints, Listed(incoming, u), u);
      adjacent := SortedUnique(adjacent);
      if Valid() {
        ListsGiveNeighbours(outgoing, incoming, endpoints, u);
      }
    }

    method Collect(es: seq<EdgeId>, u: NodeId, before: seq<NodeId>) returns (adjacent: seq<NodeId>)
      ensures adjacent == before + Others(endpoints, es, u)
    {
      adjacent := before;
      for i := 0 to |es|
        invariant adjacent == before + Others(endpoints, es[..i], u)
      {
        assert es[..i + 1][..i] == es[..i];
        if es[i] in endpoints {
          var x := endpoints[es[i]];
          adjacent := adjacent + [if x.from == u then x.to else x.from];
        }
      }
      assert es[..|es|] == es;
    }
  }
}
