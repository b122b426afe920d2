/**
 * The control-flow graph of a TAAS method. Vertices are objects (the
 * inliner moves callee vertices into the caller by reference and rewrites
 * their payloads in place); edges are (start, end) pairs kept in a list.
 * `Method` joins the method's code (`TaasCode`) and its register table
 * (`TaasLocals`).
 */
module Cfg {
  import opened Ir
  import opened Locals

  datatype Kind = Entry | Exit | Default

  class Vertex {
    const kind: Kind
    var value: Value

    constructor (kind: Kind, value: Value)
      ensures this.kind == kind && this.value == value
    {
      this.kind := kind;
      this.value := value;
    }
  }

  datatype Edge = Edge(start: Vertex, end: Vertex)

  predicate Distinct<T(==)>(s: seq<T>)
  {
    forall i, j :: 0 <= i < j < |s| ==> s[i] != s[j]
  }

  // ---------------------------------------------------------------------
  // graph queries
  // ---------------------------------------------------------------------

  /** The Default vertices of a list, in list order. */
  function DefaultVertices(vs: seq<Vertex>): seq<Vertex>
  {
    if vs == [] then []
    else
      var last := vs[|vs| - 1];
      DefaultVertices(vs[..|vs| - 1]) + if last.kind == Default then [last] else []
  }

  /** The edges of a list whose two endpoints are Default vertices, in list order. */
  function DefaultEdges(es: seq<Edge>): seq<Edge>
  {
    if es == [] then []
    else
      var last := es[|es| - 1];
      DefaultEdges(es[..|es| - 1])
        + if last.start.kind == Default && last.end.kind == Default then [last] else []
  }

  /** `incommingOf(v)`: the edges ending at `v`, in list order. */
  function Incoming(es: seq<Edge>, v: Vertex): seq<Edge>
  {
    if es == [] then []
    else
      var last := es[|es| - 1];
      Incoming(es[..|es| - 1], v) + if last.end == v then [last] else []
  }

  /**
   * `outgoingOf(v).get(0).endVertex`: the end of the first edge leaving `v`,
   * if there is one.
   */
  function Successor(es: seq<Edge>, v: Vertex): Option<Vertex>
  {
    if es == [] then None
    else if es[0].start == v then Some(es[0].end)
    else
      assert es == [es[0]] + es[1..];
      Successor(es[1..], v)
  }

  /** Every edge that ended at `from` ends at `to` instead; nothing else changes. */
  function Redirect(es: seq<Edge>, from: Vertex, to: Vertex): (r: seq<Edge>)
    ensures |r| == |es|
  {
    if es == [] then []
    else
      var last := es[|es| - 1];
      Redirect(es[..|es| - 1], from, to) + [if last.end == from then Edge(last.start, to) else last]
  }

  /**
   * One edge from the start of every edge into `exit` to `site`, in the
   * order of those edges.
   */
  function ExitEdges(es: seq<Edge>, exit: Vertex, site: Vertex): seq<Edge>
  {
    if es == [] then []
    else
      var last := es[|es| - 1];
      ExitEdges(es[..|es| - 1], exit, site) + if last.end == exit then [Edge(last.start, site)] else []
  }

  /** `v0 -> v1 -> ... -> vn-1`. */
  function Links(vs: seq<Vertex>): (r: seq<Edge>)
    ensures |r| == if vs == [] then 0 else |vs| - 1
  {
    if |vs| <= 1 then []
    else Links(vs[..|vs| - 1]) + [Edge(vs[|vs| - 2], vs[|vs| - 1])]
  }

  /** The edges of a blueprint, given the vertices allocated for its positions. */
  function Wire(vs: seq<Vertex>, links: seq<(nat, nat)>): (r: seq<Edge>)
    requires forall j :: 0 <= j < |links| ==> links[j].0 < |vs| && links[j].1 < |vs|
    ensures |r| == |links|
  {
    if links == [] then []
    else Wire(vs, links[..|links| - 1]) + [Edge(vs[links[|links| - 1].0], vs[links[|links| - 1].1])]
  }

  /** The payloads of a list of vertices, in list order. */
  ghost function Payloads(vs: seq<Vertex>): (r: seq<Value>)
    reads set i | 0 <= i < |vs| :: vs[i]
    ensures |r| == |vs|
  {
    if vs == [] then [] else Payloads(vs[..|vs| - 1]) + [vs[|vs| - 1].value]
  }

  lemma {:induction false} PayloadsAt(vs: seq<Vertex>, i: nat)
    requires i < |vs|
    ensures Payloads(vs)[i] == vs[i].value
  {
    if i < |vs| - 1 {
      PayloadsAt(vs[..|vs| - 1], i);
    }
  }

  lemma PayloadsExactly(vs: seq<Vertex>)
    ensures forall i :: 0 <= i < |vs| ==> Payloads(vs)[i] == vs[i].value
  {
    forall i | 0 <= i < |vs| {
      PayloadsAt(vs, i);
    }
  }

  function CountKind(vs: seq<Vertex>, k: Kind): nat
  {
    if vs == [] then 0
    else CountKind(vs[..|vs| - 1], k) + if vs[|vs| - 1].kind == k then 1 else 0
  }

  // ---------------------------------------------------------------------
  // the builder's output, as a value
  // ---------------------------------------------------------------------

  /**
   * What the IR builder produces from a method body: vertex kinds and
   * payloads by position, edges as pairs of positions, the register table,
   * and the positions of the entry and exit vertices.
   */
  datatype Blueprint = Blueprint(
    kinds: seq<Kind>,
    payloads: seq<Value>,
    links: seq<(nat, nat)>,
    registers: seq<Register>,
    entry: nat,
    exit: nat)

  /** A built method whose entry and exit are in place and whose entry has a successor. */
  predicate WellFormed(bp: Blueprint)
  {
    && |bp.payloads| == |bp.kinds|
    && bp.entry < |bp.kinds| && bp.kinds[bp.entry] == Entry
    && bp.exit < |bp.kinds| && bp.kinds[bp.exit] == Exit
    && (forall j :: 0 <= j < |bp.links| ==> bp.links[j].0 < |bp.kinds| && bp.links[j].1 < |bp.kinds|)
    && (exists j :: 0 <= j < |bp.links| && bp.links[j].0 == bp.entry)
  }

  // ---------------------------------------------------------------------
  // a method: code and registers
  // ---------------------------------------------------------------------

  class Method {
    var vertices: seq<Vertex>
    var edges: seq<Edge>
    var locals: seq<Register>
    var entry: Vertex
    var exit: Vertex

    ghost predicate Valid()
      reads this
    {
      && Distinct(vertices)
      && entry in vertices && entry.kind == Entry
      && exit in vertices && exit.kind == Exit
    }

    /** `code.outgoingOf(code.getEntryVertex()).get(0).endVertex`. */
    function Source(): Option<Vertex>
      reads this
    {
      Successor(edges, entry)
    }

    /** `locals.numRegisters()`. */
    function NumRegisters(): nat
      reads this
    {
      |locals|
    }

    /** `TaasBuilder.build`: fresh vertices for the positions of the blueprint. */
    constructor Build(bp: Blueprint)
      requires WellFormed(bp)
      ensures Valid() && Source().Some?
      ensures |vertices| == |bp.kinds|
      ensures forall i :: 0 <= i < |vertices| ==>
        fresh(vertices[i]) && vertices[i].kind == bp.kinds[i] && vertices[i].value == bp.payloads[i]
      ensures edges == Wire(vertices, bp.links)
      ensures locals == bp.registers
      ensures entry == vertices[bp.entry] && exit == vertices[bp.exit]
    {
      var vs: seq<Vertex> := [];
      for i := 0 to |bp.kinds|
        invariant |vs| == i
        invariant Distinct(vs)
        invariant forall j :: 0 <= j < i ==>
          fresh(vs[j]) && vs[j].kind == bp.kinds[j] && vs[j].value == bp.payloads[j]
      {
        var v := new Vertex(bp.kinds[i], bp.payloads[i]);
        vs := vs + [v];
      }
      var es := Wire(vs, bp.links);
      var w :| 0 <= w < |bp.links| && bp.links[w].0 == bp.entry;
      SuccessorExactly(es, vs[bp.entry]);
      WireAt(vs, bp.links, w);
      vertices, edges, locals := vs, es, bp.registers;
      entry, exit := vs[bp.entry], vs[bp.exit];
    }

    /**
     * `TaasToolkit.insertBefore(method, point, v)`, which is not part of
     * this model; assumed contract: `v` is added, every edge into `point`
     * now enters `v`, and `v` falls through to `point`.
     */
    method InsertBefore(point: Vertex, v: Vertex)
      requires Valid() && v !in vertices
      modifies this
      ensures Valid()
      ensures vertices == old(vertices) + [v]
      ensures edges == Redirect(old(edges), point, v) + [Edge(v, point)]
      ensures locals == old(locals) && entry == old(entry) && exit == old(exit)
    {
      vertices := vertices + [v];
      edges := Redirect(edges, point, v) + [Edge(v, point)];
    }

    /**
     * `TaasToolkit.createRegister(method)` followed by `typeAs(ty)`;
     * `createRegister` is not part of this model. Assumed contract: the new
     * register takes the next index, `numRegisters()`, and is appended.
     */
    method CreateRegister(ty: Ty) returns (r: Register)
      modifies this
      ensures r == Register(old(NumRegisters()), ty)
      ensures locals == old(locals) + [r]
      ensures vertices == old(vertices) && edges == old(edges)
      ensures entry == old(entry) && exit == old(exit)
    {
      r := Register(|locals|, ty);
      locals := locals + [r];
    }

    /**
     * `locals.offset(k)`. The register objects are shared with the code
     * that reads and writes them, so the code is renumbered with them.
     */
    method Offset(k: nat)
      requires Valid()
      modifies this, vertices
      ensures Valid()
      ensures locals == ShiftRegisters(old(locals), k)
      ensures vertices == old(vertices) && edges == old(edges)
      ensures entry == old(entry) && exit == old(exit)
      ensures forall i :: 0 <= i < |vertices| ==> vertices[i].value == Shift(old(vertices[i].value), k)
    {
      var shifted: seq<Register> := [];
      for i := 0 to |locals|
        invariant shifted == ShiftRegisters(locals[..i], k)
      {
        assert locals[..i + 1][..i] == locals[..i];
        shifted := shifted + [Register(locals[i].index + k, locals[i].ty)];
      }
      assert locals[..|locals|] == locals;
      locals := shifted;
      for i := 0 to |vertices|
        invariant locals == ShiftRegisters(old(locals), k)
        invariant vertices == old(vertices) && edges == old(edges)
        invariant entry == old(entry) && exit == old(exit)
        invariant forall j :: 0 <= j < i ==> vertices[j].value == Shift(old(vertices[j].value), k)
        invariant forall j :: i <= j < |vertices| ==> vertices[j].value == old(vertices[j].value)
      {
        vertices[i].value := Shift(vertices[i].value, k);
      }
    }
  }

  // ---------------------------------------------------------------------
  // lemmas about the graph queries
  // ---------------------------------------------------------------------

  /**
   * A vertex has a successor exactly when some edge leaves it, and the
   * successor is the end of an edge leaving it.
   */
  lemma {:induction false} SuccessorExactly(es: seq<Edge>, v: Vertex)
    ensures Successor(es, v).Some? <==> exists i :: 0 <= i < |es| && es[i].start == v
    ensures Successor(es, v).Some? ==> Edge(v, Successor(es, v).value) in es
  {
    if es != [] && es[0].start != v {
      SuccessorExactly(es[1..], v);
      assert forall i :: 1 <= i < |es| ==> es[i] == es[1..][i - 1];
    }
  }

  /** Edge `i` of a redirected list is edge `i` of the original, moved to `to` if it ended at `from`. */
  lemma {:induction false} RedirectAt(es: seq<Edge>, from: Vertex, to: Vertex, i: nat)
    requires i < |es|
    ensures Redirect(es, from, to)[i] == if es[i].end == from then Edge(es[i].start, to) else es[i]
  {
    if i < |es| - 1 {
      RedirectAt(es[..|es| - 1], from, to, i);
    }
  }

  lemma RedirectPointwise(es: seq<Edge>, from: Vertex, to: Vertex)
    ensures forall i :: 0 <= i < |es| ==>
      Redirect(es, from, to)[i] == if es[i].end == from then Edge(es[i].start, to) else es[i]
  {
    forall i | 0 <= i < |es| {
      RedirectAt(es, from, to, i);
    }
  }

  /** Edge `i` of the links joins vertex `i` to vertex `i + 1`. */
  lemma {:induction false} LinksAt(vs: seq<Vertex>, i: nat)
    requires i + 1 < |vs|
    ensures Links(vs)[i] == Edge(vs[i], vs[i + 1])
  {
    if i + 2 < |vs| {
      LinksAt(vs[..|vs| - 1], i);
    }
  }

  /** Edge `j` of the wiring joins the vertices at the positions of link `j`. */
  lemma {:induction false} WireAt(vs: seq<Vertex>, links: seq<(nat, nat)>, j: nat)
    requires forall j :: 0 <= j < |links| ==> links[j].0 < |vs| && links[j].1 < |vs|
    requires j < |links|
    ensures Wire(vs, links)[j] == Edge(vs[links[j].0], vs[links[j].1])
  {
    if j < |links| - 1 {
      WireAt(vs, links[..|links| - 1], j);
    }
  }

  lemma RedirectAppend(a: seq<Edge>, b: seq<Edge>, from: Vertex, to: Vertex)
    ensures Redirect(a + b, from, to) == Redirect(a, from, to) + Redirect(b, from, to)
  {
    var l, r := Redirect(a + b, from, to), Redirect(a, from, to) + Redirect(b, from, to);
    assert |l| == |r|;
    forall i | 0 <= i < |l| ensures l[i] == r[i] {
      RedirectAt(a + b, from, to, i);
      if i < |a| {
        assert (a + b)[i] == a[i];
        RedirectAt(a, from, to, i);
      } else {
        assert (a + b)[i] == b[i - |a|];
        RedirectAt(b, from, to, i - |a|);
      }
    }
  }

  /** Redirecting changes nothing when no edge ends at `from`. */
  lemma RedirectIdle(es: seq<Edge>, from: Vertex, to: Vertex)
    requires forall i :: 0 <= i < |es| ==> es[i].end != from
    ensures Redirect(es, from, to) == es
  {
    var r := Redirect(es, from, to);
    forall i | 0 <= i < |es| ensures r[i] == es[i] {
      RedirectAt(es, from, to, i);
    }
  }

  /** After redirecting to another vertex, no edge ends at `from`. */
  lemma {:induction false} RedirectClears(es: seq<Edge>, from: Vertex, to: Vertex)
    requires from != to
    ensures forall i :: 0 <= i < |es| ==> Redirect(es, from, to)[i].end != from
  {
    RedirectPointwise(es, from, to);
  }

  /**
   * If the first edge leaving `v` ended at `from`, after the redirection it
   * ends at `to`: the successor of `v` moves with its edge.
   */
  lemma {:induction false} SuccessorRedirect(es: seq<Edge>, v: Vertex, from: Vertex, to: Vertex)
    requires Successor(es, v) == Some(from)
    ensures Successor(Redirect(es, from, to), v) == Some(to)
  {
    var r := Redirect(es, from, to);
    RedirectAt(es, from, to, 0);
    if es[0].start != v {
      assert es == [es[0]] + es[1..];
      RedirectAppend([es[0]], es[1..], from, to);
      assert r == Redirect([es[0]], from, to) + Redirect(es[1..], from, to);
      assert r[1..] == Redirect(es[1..], from, to);
      SuccessorRedirect(es[1..], v, from, to);
    }
  }

  /** Appending edges does not change the first successor of a vertex that has one. */
  lemma {:induction false} SuccessorAppend(a: seq<Edge>, b: seq<Edge>, v: Vertex)
    requires Successor(a, v).Some?
    ensures Successor(a + b, v) == Successor(a, v)
  {
    if a[0].start != v {
      assert (a + b)[1..] == a[1..] + b;
      SuccessorAppend(a[1..], b, v);
    }
  }

  lemma {:induction false} CountKindAppend(a: seq<Vertex>, b: seq<Vertex>, k: Kind)
    decreases |b|
    ensures CountKind(a + b, k) == CountKind(a, k) + CountKind(b, k)
  {
    if b == [] {
      assert a + b == a;
    } else {
      assert (a + b)[..|a + b| - 1] == a + b[..|b| - 1];
      assert (a + b)[|a + b| - 1] == b[|b| - 1];
      CountKindAppend(a, b[..|b| - 1], k);
    }
  }

  lemma {:induction false} CountKindDefaultVertices(vs: seq<Vertex>, k: Kind)
    requires k != Default
    decreases |vs|
    ensures CountKind(DefaultVertices(vs), k) == 0
  {
    if vs != [] {
      var init, last := vs[..|vs| - 1], vs[|vs| - 1];
      CountKindDefaultVertices(init, k);
      CountKindAppend(DefaultVertices(init), if last.kind == Default then [last] else [], k);
      if last.kind == Default {
        assert [last][..0] == [];
      }
    }
  }

  /** The Default vertices of a list are exactly its vertices of kind Default. */
  lemma {:induction false} DefaultVerticesExactly(vs: seq<Vertex>)
    ensures forall v :: v in DefaultVertices(vs) <==> v in vs && v.kind == Default
  {
    if vs != [] {
      DefaultVerticesExactly(vs[..|vs| - 1]);
      assert vs == vs[..|vs| - 1] + [vs[|vs| - 1]];
    }
  }

  /** Two lists without repetitions and without a common element join into one without repetitions. */
  lemma DistinctAppend<T>(a: seq<T>, b: seq<T>)
    requires Distinct(a) && Distinct(b)
    requires forall j :: 0 <= j < |b| ==> b[j] !in a
    ensures Distinct(a + b)
  {
    forall i, j | 0 <= i < j < |a + b|
      ensures (a + b)[i] != (a + b)[j]
    {
      if j >= |a| && i < |a| {
        assert (a + b)[j] == b[j - |a|];
      }
    }
  }

  /** Filtering keeps a list free of repetitions. */
  lemma {:induction false} DefaultVerticesDistinct(vs: seq<Vertex>)
    requires Distinct(vs)
    ensures Distinct(DefaultVertices(vs))
  {
    if vs != [] {
      var init, last := vs[..|vs| - 1], vs[|vs| - 1];
      DefaultVerticesDistinct(init);
      DefaultVerticesExactly(init);
      DistinctAppend(DefaultVertices(init), if last.kind == Default then [last] else []);
    }
  }

  /** The Default edges of a list are exactly its edges joining two Default vertices. */
  lemma {:induction false} DefaultEdgesExactly(es: seq<Edge>)
    ensures forall e :: e in DefaultEdges(es) <==> e in es && e.start.kind == Default && e.end.kind == Default
  {
    if es != [] {
      DefaultEdgesExactly(es[..|es| - 1]);
      assert es == es[..|es| - 1] + [es[|es| - 1]];
    }
  }

  /**
   * The fall-through edges follow the edges into `exit` one for one: edge
   * `i` runs from the start of the `i`-th edge into `exit` to `site`.
   */
  lemma {:induction false} ExitEdgesFollowIncoming(es: seq<Edge>, exit: Vertex, site: Vertex)
    ensures |ExitEdges(es, exit, site)| == |Incoming(es, exit)|
    ensures forall i :: 0 <= i < |Incoming(es, exit)| ==>
      ExitEdges(es, exit, site)[i] == Edge(Incoming(es, exit)[i].start, site)
  {
    if es != [] {
      ExitEdgesFollowIncoming(es[..|es| - 1], exit, site);
    }
  }

  lemma LinksAppend(vs: seq<Vertex>, v: Vertex)
    requires vs != []
    ensures Links(vs + [v]) == Links(vs) + [Edge(vs[|vs| - 1], v)]
  {
    assert (vs + [v])[..|vs|] == vs;
  }

  lemma LinksAvoid(vs: seq<Vertex>, point: Vertex)
    requires forall j :: 0 <= j < |vs| ==> vs[j] != point
    ensures forall i :: 0 <= i < |Links(vs)| ==> Links(vs)[i].end != point
  {
  }

  /**
   * The edges after the vertices of `bound` were inserted one by one before
   * `point`: the chain takes over every edge into `point`, runs in order and
   * falls through to `point`.
   */
  function Chain(es: seq<Edge>, point: Vertex, bound: seq<Vertex>): seq<Edge>
  {
    if bound == [] then es
    else Redirect(es, point, bound[0]) + Links(bound) + [Edge(bound[|bound| - 1], point)]
  }

  lemma {:induction false} ChainExtends(es: seq<Edge>, bound: seq<Vertex>, point: Vertex, v: Vertex)
    requires bound != [] && bound[0] != point
    requires forall j :: 0 <= j < |bound| ==> bound[j] != point
    ensures Redirect(Redirect(es, point, bound[0]) + Links(bound) + [Edge(bound[|bound| - 1], point)], point, v)
              + [Edge(v, point)]
            == Redirect(es, point, bound[0]) + Links(bound + [v]) + [Edge(v, point)]
  {
    var head := Redirect(es, point, bound[0]);
    var links := Links(bound);
    var bl := bound[|bound| - 1];
    RedirectClears(es, point, bound[0]);
    RedirectIdle(head, point, v);
    LinksAvoid(bound, point);
    RedirectIdle(links, point, v);
    LinksAppend(bound, v);
    calc {
      Redirect(head + links + [Edge(bl, point)], point, v);
      { RedirectAppend(head + links, [Edge(bl, point)], point, v); }
      Redirect(head + links, point, v) + Redirect([Edge(bl, point)], point, v);
      { RedirectAppend(head, links, point, v); }
      head + links + Redirect([Edge(bl, point)], point, v);
      { assert Redirect([Edge(bl, point)], point, v) == [Edge(bl, v)]; }
      head + links + [Edge(bl, v)];
    }
  }

  /** One more `insertBefore(point, v)` extends the chain by `v`. */
  lemma {:induction false} ChainGrows(es: seq<Edge>, bound: seq<Vertex>, point: Vertex, v: Vertex)
    requires v != point
    requires forall j :: 0 <= j < |bound| ==> bound[j] != point
    ensures Redirect(Chain(es, point, bound), point, v) + [Edge(v, point)] == Chain(es, point, bound + [v])
  {
    if bound == [] {
      assert Links([v]) == [];
    } else {
      ChainExtends(es, bound, point, v);
      assert (bound + [v])[0] == bound[0];
    }
  }

  /**
   * Once a non-empty chain is inserted before the successor of `v`, the
   * chain's first vertex is the successor of `v`.
   */
  lemma {:induction false} ChainTakesOver(es: seq<Edge>, v: Vertex, bound: seq<Vertex>, point: Vertex)
    requires Successor(es, v) == Some(point) && bound != []
    ensures Successor(Chain(es, point, bound), v) == Some(bound[0])
  {
    var head := Redirect(es, point, bound[0]);
    SuccessorRedirect(es, v, point, bound[0]);
    SuccessorAppend(head, Links(bound) + [Edge(bound[|bound| - 1], point)], v);
    assert head + Links(bound) + [Edge(bound[|bound| - 1], point)]
      == head + (Links(bound) + [Edge(bound[|bound| - 1], point)]);
  }
}
