/**
  Thumb rules of grid.py: the derating `penalize` of aggregated
  cross-border lines, the voltage and capacity a line of the ENTSO-E network
  gets from its end points, and the completion of missing edge attributes
  (`length`, `voltage`, reactance `X`, susceptance `Y`).

  A network keeps its edges in iteration order, one attribute dictionary per
  edge and the `voltage` attribute of those nodes that have one. Attribute
  values are reals.
*/
module Grid {

  type Node = string
  type Edge = (Node, Node)

  /**
    The edge attributes these rules read or write. `Other(id)` is any further
    attribute, `id` numbering the names besides these five, so that no
    attribute has two keys.
  */
  datatype Key = Length | Voltage | X | Y | Capacity | Other(id: nat)

  type Attrs = map<Key, real>

  /** The same undirected edge read from its other end. */
  function Reversed(e: Edge): (r: Edge)
    ensures r.0 == e.1 && r.1 == e.0
  {
    (e.1, e.0)
  }

  predicate NoRepeats(edges: seq<Edge>) {
    forall i, j :: 0 <= i < j < |edges| ==> edges[i] != edges[j]
  }

  /**
    The edges of an undirected graph without repeats, in either direction,
    each with an attribute dictionary.
  */
  predicate IsGraph(edges: seq<Edge>, attrs: map<Edge, Attrs>) {
    && NoRepeats(edges)
    && (forall e {:trigger Reversed(e)} :: e in attrs && e.0 != e.1 ==> Reversed(e) !in attrs)
    && attrs.Keys == set e | e in edges
  }

  /** Mean of X / length over the Bialek network. */
  const SpecificSusceptance: real := 0.00068768296005101493

  /** Voltage assumed for a node without a `voltage` attribute and filled in for an edge without one. */
  const DefaultVoltage: real := 380.0

  // ---------------------------------------------------------------------
  // penalize

  /** The capacity left of `x` when it is the total of `n` parallel cross-border lines. */
  function Penalize(x: real, n: int): (c: real)
    ensures x >= 0.0 ==> x / 2.0 <= c <= x
    ensures x <= 0.0 ==> x <= c <= x / 2.0
    ensures x != 0.0 ==> (c == x <==> n == 1)
  {
    if n == 1 then x
    else if n == 2 then 5.0 / 6.0 * x
    else if n == 3 then 4.0 / 6.0 * x
    else 0.5 * x
  }

  /** The factor for each number of lines, with every count other than 1, 2 and 3 halving. */
  lemma PenalizeValues(x: real, n: int)
    ensures Penalize(x, 1) == x
    ensures Penalize(x, 2) == x * 5.0 / 6.0 && Penalize(x, 3) == x * 2.0 / 3.0
    ensures (n <= 0 || 4 <= n) ==> Penalize(x, n) == x / 2.0
  {
  }

  /** A total of 100 over one to four lines leaves 100, 83.33…, 66.66… and 50. */
  lemma PenalizeExample()
    ensures Penalize(100.0, 1) == 100.0
    ensures Penalize(100.0, 2) == 250.0 / 3.0
    ensures Penalize(100.0, 3) == 200.0 / 3.0
    ensures Penalize(100.0, 4) == 50.0
  {
  }

  /** For a non-negative total, more lines never leave more capacity. */
  lemma PenalizeNonincreasing(x: real, n: int, m: int)
    requires x >= 0.0 && 1 <= n <= m
    ensures Penalize(x, m) <= Penalize(x, n)
  {
  }

  /** The rule is a factor depending on `n` only: it scales with the capacity. */
  lemma PenalizeScales(a: real, x: real, n: int)
    ensures Penalize(a * x, n) == a * Penalize(x, n)
  {
  }

  // ---------------------------------------------------------------------
  // Line voltage and capacity (entsoe_tue_linecaps)

  /** The voltage of node `n`, or the default when it has none. */
  function EndpointVoltage(voltages: map<Node, real>, n: Node): real {
    if n in voltages then voltages[n] else DefaultVoltage
  }

  /** The larger voltage of the two end points. */
  function LineVoltage(voltages: map<Node, real>, e: Edge): (v: real)
    ensures v >= EndpointVoltage(voltages, e.0) && v >= EndpointVoltage(voltages, e.1)
    ensures v == EndpointVoltage(voltages, e.0) || v == EndpointVoltage(voltages, e.1)
  {
    var v1, v2 := EndpointVoltage(voltages, e.0), EndpointVoltage(voltages, e.1);
    if v1 >= v2 then v1 else v2
  }

  /** Two circuits of 1500 MW at 380 kV, of 500 MW at any other voltage (in GW). */
  function LineCapacity(voltage: real): (c: real)
    ensures c == 3.0 <==> voltage == 380.0
    ensures c == 1.0 <==> voltage != 380.0
  {
    2.0 * (if voltage == 380.0 then 1.5 else 0.5)
  }

  /** `attr.update(voltage=..., capacity=...)` for edge `e`. */
  function WithLineCapacity(voltages: map<Node, real>, e: Edge, attr: Attrs): (r: Attrs)
    ensures r.Keys == attr.Keys + {Voltage, Capacity}
    ensures r[Voltage] == LineVoltage(voltages, e)
    ensures r[Capacity] == LineCapacity(LineVoltage(voltages, e))
    ensures forall k :: k in attr && k != Voltage && k != Capacity ==> r[k] == attr[k]
  {
    attr[Voltage := LineVoltage(voltages, e)][Capacity := LineCapacity(LineVoltage(voltages, e))]
  }

  /** An edge read in either direction gets the same voltage. */
  lemma LineVoltageSymmetric(voltages: map<Node, real>, a: Node, b: Node)
    ensures LineVoltage(voltages, (a, b)) == LineVoltage(voltages, (b, a))
  {
  }

  /**
    A line gets the 380 kV capacity exactly when one end is at 380 kV (or
    has no voltage) and neither end is above it.
  */
  lemma CapacityFromEndpoints(voltages: map<Node, real>, e: Edge)
    ensures var v1, v2 := EndpointVoltage(voltages, e.0), EndpointVoltage(voltages, e.1);
      WithLineCapacity(voltages, e, map[])[Capacity] == 3.0 <==>
      v1 <= 380.0 && v2 <= 380.0 && (v1 == 380.0 || v2 == 380.0)
  {
  }

  /** The update depends only on the node voltages, so doing it twice is doing it once. */
  lemma WithLineCapacityIdempotent(voltages: map<Node, real>, e: Edge, attr: Attrs)
    ensures WithLineCapacity(voltages, e, WithLineCapacity(voltages, e, attr)) == WithLineCapacity(voltages, e, attr)
  {
    var r := WithLineCapacity(voltages, e, attr);
    var r2 := WithLineCapacity(voltages, e, r);
    assert forall k :: k in r2 ==> r2[k] == r[k];
  }

  // ---------------------------------------------------------------------
  // Attribute completion (heuristically_extend_edge_attributes)

  /** `d.setdefault(key, v)`: `d` unchanged when it has `key`, else `d` with `key` bound to `v`. */
  function SetDefault(d: Attrs, key: Key, v: real): (r: Attrs)
    ensures r.Keys == d.Keys + {key}
    ensures forall k :: k in d ==> r[k] == d[k]
    ensures key !in d ==> r[key] == v
  {
    if key in d then d else d[key := v]
  }

  /**
    The attributes after one pass of the loop body. Python evaluates every
    `setdefault` argument first, so `1./d['X']` is computed even when `Y`
    is present; when `X` is 0 it raises and the dictionary keeps the first
    three steps.
  */
  datatype Extension = Completed(attrs: Attrs) | DivisionByZero(attrs: Attrs)

  /** The four `setdefault` steps for one edge whose end points lie `length` apart; none overwrites. */
  function ExtendEdge(d: Attrs, length: real): (r: Extension)
    ensures forall k :: k in d ==> k in r.attrs && r.attrs[k] == d[k]
    ensures X in r.attrs && (r.DivisionByZero? <==> r.attrs[X] == 0.0)
  {
    var withLength := SetDefault(d, Length, length);
    var withVoltage := SetDefault(withLength, Voltage, DefaultVoltage);
    var withX := SetDefault(withVoltage, X, SpecificSusceptance * withVoltage[Length]);
    if withX[X] == 0.0 then DivisionByZero(withX)
    else Completed(SetDefault(withX, Y, 1.0 / withX[X]))
  }

  /**
    The attributes `ExtendEdge` adds: `length`, `voltage` and `X`, and `Y`
    unless it divided by zero; each missing one gets its default, `X` from
    the length present after the first step and `Y` from the `X` present
    after the third.
  */
  lemma ExtendEdgeDefaults(d: Attrs, length: real)
    ensures var r := ExtendEdge(d, length);
      r.attrs.Keys == d.Keys + {Length, Voltage, X} + (if r.Completed? then {Y} else {})
    ensures var r := ExtendEdge(d, length);
      && (Length !in d ==> r.attrs[Length] == length)
      && (Voltage !in d ==> r.attrs[Voltage] == DefaultVoltage)
      && (X !in d ==> r.attrs[X] == SpecificSusceptance * r.attrs[Length])
      && (r.Completed? && Y !in d ==> r.attrs[Y] * r.attrs[X] == 1.0)
  {
  }

  /** Completed attributes are left alone by a second pass, whatever distance it is given. */
  lemma ExtendEdgeIdempotent(d: Attrs, length: real, length': real)
    requires ExtendEdge(d, length).Completed?
    ensures ExtendEdge(ExtendEdge(d, length).attrs, length') == ExtendEdge(d, length)
  {
    var a := ExtendEdge(d, length).attrs;
    var b := ExtendEdge(a, length').attrs;
    assert b.Keys == a.Keys;
    assert forall k :: k in b ==> b[k] == a[k];
  }

  /** Replacing the attribute dictionaries over the same edges keeps a graph. */
  lemma IsGraphUpdated(edges: seq<Edge>, before: map<Edge, Attrs>, after: map<Edge, Attrs>)
    requires IsGraph(edges, before) && after.Keys == before.Keys
    ensures IsGraph(edges, after)
  {
  }

  /** A network whose edges, in iteration order, are the keys of its attribute map. */
  class Network {
    var edges: seq<Edge>
    var attrs: map<Edge, Attrs>
    var nodeVoltage: map<Node, real>

    predicate Valid()
      reads this
    {
      IsGraph(edges, attrs)
    }

    constructor (edges: seq<Edge>, attrs: map<Edge, Attrs>, nodeVoltage: map<Node, real>)
      requires IsGraph(edges, attrs)
      ensures Valid()
      ensures this.edges == edges && this.attrs == attrs && this.nodeVoltage == nodeVoltage
    {
      this.edges, this.attrs, this.nodeVoltage := edges, attrs, nodeVoltage;
    }

    /** The capacity loop of `entsoe_tue_linecaps`: every edge gets its voltage and capacity. */
    method SetLineCapacities()
      requires Valid()
      modifies this`attrs
      ensures Valid()
      ensures edges == old(edges)
      ensures attrs.Keys == old(attrs).Keys
      ensures forall e :: e in attrs ==> attrs[e] == WithLineCapacity(nodeVoltage, e, old(attrs)[e])
    {
      var voltages := nodeVoltage;
      for i := 0 to |edges|
        invariant attrs.Keys == old(attrs).Keys
        invariant forall j :: 0 <= j < i ==> attrs[edges[j]] == WithLineCapacity(voltages, edges[j], old(attrs)[edges[j]])
        invariant forall j :: i <= j < |edges| ==> attrs[edges[j]] == old(attrs)[edges[j]]
      {
        var e := edges[i];
        attrs := attrs[e := WithLineCapacity(voltages, e, attrs[e])];
      }
    }

    /**
      `heuristically_extend_edge_attributes` with `node_distance` given as
      `distance`. When an edge's reactance is 0 the division raises: `ok` is
      false, that edge keeps its first three steps, the edges before it are
      completed and the edges after it are untouched.
    */
    method ExtendEdgeAttributes(distance: (Node, Node) -> real) returns (ok: bool)
      requires Valid()
      modifies this`attrs
      ensures edges == old(edges)
      ensures attrs.Keys == old(attrs).Keys
      ensures ok <==> forall i :: 0 <= i < |edges| ==>
        ExtendEdge(old(attrs)[edges[i]], distance(edges[i].0, edges[i].1)).Completed?
      ensures ok ==> forall e :: e in attrs ==> attrs[e] == ExtendEdge(old(attrs)[e], distance(e.0, e.1)).attrs
      ensures !ok ==> exists f :: 0 <= f < |edges| && Failure(old(attrs), distance, f) && attrs == Extended(old(attrs), distance, f + 1)
      ensures Valid()
    {
      ghost var before := attrs;
      for i := 0 to |edges|
        invariant attrs.Keys == before.Keys
        invariant attrs == Extended(before, distance, i)
        invariant forall j :: 0 <= j < i ==> ExtendEdge(before[edges[j]], distance(edges[j].0, edges[j].1)).Completed?
      {
        var r := ExtendNext(before, distance, i);
        if r.DivisionByZero? {
          assert Failure(before, distance, i);
          ExtendedValid(before, distance, i + 1);
          return false;
        }
      }
      ExtendedAll(before, distance);
      ExtendedValid(before, distance, |edges|);
      return true;
    }

    /** The loop body for edge `i`: its four `setdefault` steps, applied to its dictionary in place. */
    method ExtendNext(ghost before: map<Edge, Attrs>, distance: (Node, Node) -> real, i: nat) returns (r: Extension)
      requires IsGraph(edges, before) && i < |edges|
      requires attrs == Extended(before, distance, i)
      modifies this`attrs
      ensures attrs == Extended(before, distance, i + 1)
      ensures r == ExtendEdge(before[edges[i]], distance(edges[i].0, edges[i].1))
    {
      var e := edges[i];
      ExtendedStep(before, distance, i);
      r := ExtendEdge(attrs[e], distance(e.0, e.1));
      attrs := attrs[e := r.attrs];
    }

    /** Edge `f` is the first whose completion divides by zero. */
    ghost predicate Failure(before: map<Edge, Attrs>, distance: (Node, Node) -> real, f: nat)
      reads this`edges
      requires IsGraph(edges, before) && f < |edges|
    {
      && (forall j :: 0 <= j < f ==> ExtendEdge(before[edges[j]], distance(edges[j].0, edges[j].1)).Completed?)
      && ExtendEdge(before[edges[f]], distance(edges[f].0, edges[f].1)).DivisionByZero?
    }

    /** The attribute map once the loop body has run on the first `n` edges. */
    ghost function Extended(before: map<Edge, Attrs>, distance: (Node, Node) -> real, n: nat): (r: map<Edge, Attrs>)
      reads this`edges
      requires IsGraph(edges, before) && n <= |edges|
      ensures r.Keys == before.Keys
    {
      map e | e in before ::
        if e in edges[..n] then ExtendEdge(before[e], distance(e.0, e.1)).attrs else before[e]
    }

    /** One more pass of the loop body changes only the next edge, which still has its original attributes. */
    lemma ExtendedStep(before: map<Edge, Attrs>, distance: (Node, Node) -> real, n: nat)
      requires IsGraph(edges, before) && n < |edges|
      ensures Extended(before, distance, n)[edges[n]] == before[edges[n]]
      ensures Extended(before, distance, n + 1) ==
        Extended(before, distance, n)[edges[n] := ExtendEdge(before[edges[n]], distance(edges[n].0, edges[n].1)).attrs]
    {
      assert edges[..n + 1] == edges[..n] + [edges[n]];
      assert edges[n] !in edges[..n];
    }

    /** Completing any prefix of the edges leaves a valid network. */
    lemma ExtendedValid(before: map<Edge, Attrs>, distance: (Node, Node) -> real, n: nat)
      requires IsGraph(edges, before) && n <= |edges|
      requires attrs == Extended(before, distance, n)
      ensures Valid()
    {
      IsGraphUpdated(edges, before, attrs);
    }

    /** After the last edge every edge is completed. */
    lemma ExtendedAll(before: map<Edge, Attrs>, distance: (Node, Node) -> real)
      requires IsGraph(edges, before)
      ensures forall e :: e in before ==>
        Extended(before, distance, |edges|)[e] == ExtendEdge(before[e], distance(e.0, e.1)).attrs
    {
      assert edges[..|edges|] == edges;
    }
  }
}
