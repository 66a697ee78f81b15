/**
 * The host framework's node registry as the controller sees it: a map from
 * light address to light (`nodes`) together with `order`, the addresses in
 * the order they were added. `Grown` describes a registry part-way through
 * discovery.
 */
module NodeRegistry {
  import opened Identity
  import opened Light

  /** The light `light` was created for registration `r` under the controller at `primary`. */
  ghost predicate Registers(light: TwinklyLight, primary: string, r: Registration) {
    && light.primary == primary && light.address == r.address && light.name == r.name
    && light.myHost == r.host && light.queryON
  }

  /** The elements of a sequence. */
  function Elements(s: seq<string>): (e: set<string>)
    ensures forall i :: 0 <= i < |s| ==> s[i] in e
  {
    if s == [] then {} else Elements(s[..|s| - 1]) + {s[|s| - 1]}
  }

  /** Every element of `Elements(s)` sits at some index of `s`. */
  lemma {:induction false} ElementsIndex(s: seq<string>, x: string)
    requires x in Elements(s)
    ensures exists i :: 0 <= i < |s| && s[i] == x
  {
    if s[|s| - 1] != x {
      ElementsIndex(s[..|s| - 1], x);
      var i :| 0 <= i < |s| - 1 && s[..|s| - 1][i] == x;
      assert s[i] == x;
    }
  }

  /** Two registries with the same addresses, each holding the same light, are equal. */
  lemma SameMap(a: map<string, TwinklyLight>, b: map<string, TwinklyLight>)
    requires a.Keys == b.Keys
    requires forall id :: id in a ==> id in b && b[id] == a[id]
    ensures a == b
  {
  }

  /** `order` lists each registered address exactly once. */
  ghost predicate Registry(nodes: map<string, TwinklyLight>, order: seq<string>)
    decreases |order|
  {
    if order == [] then nodes == map[]
    else
      var id := order[|order| - 1];
      id in nodes && Registry(nodes - {id}, order[..|order| - 1])
  }

  /** Each light is registered under its own address. */
  ghost predicate Addressed(nodes: map<string, TwinklyLight>) {
    forall id :: id in nodes ==> nodes[id].address == id
  }

  /** The registered addresses are exactly the elements of `order`. */
  lemma {:induction false} RegistryKeys(nodes: map<string, TwinklyLight>, order: seq<string>)
    requires Registry(nodes, order)
    ensures nodes.Keys == Elements(order)
    decreases |order|
  {
    if order != [] {
      var id := order[|order| - 1];
      RegistryKeys(nodes - {id}, order[..|order| - 1]);
    }
  }

  /** In a well-formed registry the addresses of `order` are distinct and hold distinct lights. */
  lemma {:induction false} RegistryDistinct(nodes: map<string, TwinklyLight>, order: seq<string>)
    requires Registry(nodes, order) && Addressed(nodes)
    ensures forall i :: 0 <= i < |order| ==> order[i] in nodes
    ensures forall i, j :: 0 <= i < j < |order| ==> order[i] != order[j] && nodes[order[i]] != nodes[order[j]]
    decreases |order|
  {
    if order != [] {
      var n := |order|;
      var id, prefix := order[n - 1], order[..n - 1];
      var rest := nodes - {id};
      RegistryDistinct(rest, prefix);
      RegistryKeys(rest, prefix);
      forall i | 0 <= i < n ensures order[i] in nodes {
        if i < n - 1 {
          assert order[i] == prefix[i];
        }
      }
      forall i, j | 0 <= i < j < n ensures order[i] != order[j] && nodes[order[i]] != nodes[order[j]] {
        assert order[i] == prefix[i];
        if j < n - 1 {
          assert order[j] == prefix[j];
        } else {
          assert order[i] in rest;
        }
      }
    }
  }

  /** Registering a new address keeps the registry well formed. */
  lemma RegistryAdd(nodes: map<string, TwinklyLight>, order: seq<string>, id: string, light: TwinklyLight)
    requires Registry(nodes, order) && id !in nodes
    ensures Registry(nodes[id := light], order + [id])
  {
    assert (order + [id])[..|order|] == order;
    assert nodes[id := light] - {id} == nodes;
  }

  /**
   * Discovery is under way: starting from the registry `before`/`beforeOrder`,
   * the registrations `added` have been appended in order, each to a light
   * of `made` created for it under the controller at `primary`, and every
   * address registered before still holds its old light.
   */
  ghost predicate Grown(before: map<string, TwinklyLight>, beforeOrder: seq<string>, added: seq<Registration>,
                        made: set<TwinklyLight>, primary: string, nodes: map<string, TwinklyLight>, order: seq<string>)
  {
    && Registry(nodes, order)
    && Addressed(nodes)
    && order == beforeOrder + Addresses(added)
    && (forall id :: id in before ==> id in nodes && nodes[id] == before[id])
    && (forall j :: 0 <= j < |added| ==>
          added[j].address in nodes && nodes[added[j].address] in made && Registers(nodes[added[j].address], primary, added[j]))
  }

  /** Discovery starts from a well-formed registry with nothing added yet. */
  lemma GrownStart(nodes: map<string, TwinklyLight>, order: seq<string>, primary: string)
    requires Registry(nodes, order) && Addressed(nodes)
    ensures Grown(nodes, order, [], {}, primary, nodes, order)
  {
    assert order + Addresses([]) == order;
  }

  /** The elements of a concatenation are those of its two parts. */
  lemma {:induction false} ElementsConcat(a: seq<string>, b: seq<string>)
    ensures Elements(a + b) == Elements(a) + Elements(b)
    decreases |b|
  {
    if b != [] {
      var b' := b[..|b| - 1];
      ElementsConcat(a, b');
      assert (a + b)[..|a + b| - 1] == a + b';
    } else {
      assert a + b == a;
    }
  }

  /** An address is registered during discovery exactly when it was registered before or has been added. */
  lemma GrownHolds(before: map<string, TwinklyLight>, beforeOrder: seq<string>, added: seq<Registration>,
                   made: set<TwinklyLight>, primary: string, nodes: map<string, TwinklyLight>, order: seq<string>, id: string)
    requires Registry(before, beforeOrder)
    requires Grown(before, beforeOrder, added, made, primary, nodes, order)
    ensures id in nodes <==> id in before || id in Addresses(added)
  {
    RegistryKeys(before, beforeOrder);
    RegistryKeys(nodes, order);
    ElementsConcat(beforeOrder, Addresses(added));
    if id in Elements(Addresses(added)) {
      ElementsIndex(Addresses(added), id);
    }
  }

  /**
   * The registry `nodes`/`order` is `before`/`beforeOrder` with the
   * registrations `added` appended, each to a light created for it under the
   * controller at `primary`, and nothing else changed.
   */
  ghost predicate Extended(before: map<string, TwinklyLight>, beforeOrder: seq<string>, added: seq<Registration>,
                           primary: string, nodes: map<string, TwinklyLight>, order: seq<string>)
  {
    && order == beforeOrder + Addresses(added)
    && nodes.Keys == before.Keys + (set id | id in Addresses(added))
    && (forall id :: id in before ==> id in nodes && nodes[id] == before[id])
    && (forall j :: 0 <= j < |added| ==> added[j].address in nodes && Registers(nodes[added[j].address], primary, added[j]))
  }

  /** Extending by nothing leaves the registry as it was. */
  lemma ExtendedByNothing(before: map<string, TwinklyLight>, beforeOrder: seq<string>, primary: string,
                          nodes: map<string, TwinklyLight>, order: seq<string>)
    requires Extended(before, beforeOrder, [], primary, nodes, order)
    ensures nodes == before && order == beforeOrder
  {
    assert Addresses([]) == [];
    assert (set id | id in Addresses([])) == {};
    SameMap(before, nodes);
  }

  /** Discovery is over: the registry is well formed, and it is the old one extended by the added lights. */
  lemma GrownDone(before: map<string, TwinklyLight>, beforeOrder: seq<string>, added: seq<Registration>,
                  made: set<TwinklyLight>, primary: string, nodes: map<string, TwinklyLight>, order: seq<string>)
    requires Registry(before, beforeOrder)
    requires Grown(before, beforeOrder, added, made, primary, nodes, order)
    ensures Registry(nodes, order) && Addressed(nodes)
    ensures Extended(before, beforeOrder, added, primary, nodes, order)
    ensures forall j :: 0 <= j < |added| ==> added[j].address in nodes && nodes[added[j].address] in made
  {
    forall id ensures id in nodes <==> id in before || id in Addresses(added) {
      GrownHolds(before, beforeOrder, added, made, primary, nodes, order, id);
    }
  }

  /** Adding a fresh light for a new address keeps discovery on track. */
  lemma GrownAdd(before: map<string, TwinklyLight>, beforeOrder: seq<string>, added: seq<Registration>,
                 made: set<TwinklyLight>, primary: string, nodes: map<string, TwinklyLight>, order: seq<string>,
                 r: Registration, light: TwinklyLight)
    requires Grown(before, beforeOrder, added, made, primary, nodes, order)
    requires r.address !in nodes && Registers(light, primary, r)
    ensures Grown(before, beforeOrder, added + [r], made + {light}, primary, nodes[r.address := light], order + [r.address])
  {
    var ids := Addresses(added);
    RegistryAdd(nodes, order, r.address, light);
    AddressesAppend(added, r);
    assert beforeOrder + ids + [r.address] == beforeOrder + (ids + [r.address]);
    var added', nodes' := added + [r], nodes[r.address := light];
    forall j | 0 <= j < |added'|
      ensures added'[j].address in nodes' && nodes'[added'[j].address] in made + {light}
      ensures Registers(nodes'[added'[j].address], primary, added'[j])
    {
      if j < |added| {
        assert added'[j] == added[j];
      }
    }
  }

}
