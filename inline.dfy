/**
 * The inline-expansion pass: for every vertex of a method, find the first
 * call in its payload; if the call is made on the scope register with
 * statically known names, and the typer resolves it to a method with a
 * body and a non-void return type, build the callee, renumber its
 * registers, bind the arguments, turn its returns into assignments to a
 * fresh result register and put that register in place of the call. After
 * the scan, splice every prepared callee into the method's graph in front
 * of its call-site vertex.
 *
 * The IR builder and the typer are collaborators this model does not
 * contain: the builder is a function from a method body to a `Blueprint`,
 * the typer a pair of functions.
 */
module Inlining {
  import opened Ir
  import opened Locals
  import opened Cfg

  /** The raw code of an ABC method body. */
  datatype Bytecode = Bytecode(bytes: seq<int>)

  datatype MethodBody = MethodBody(code: Option<Bytecode>)

  /** An ABC method as the typer finds it; `body` is absent for native methods. */
  datatype AbcMethod = AbcMethod(body: Option<MethodBody>, returnType: string)

  /** `method.typer`: `findProperty` and `toNativeType`. */
  datatype Typer = Typer(findProperty: (Ty, Ty) -> Option<AbcMethod>, toNativeType: string -> Ty)

  /** The vertex holding the call and the callee prepared for it. */
  datatype InlineTarget = InlineTarget(vertex: Vertex, callee: Method)

  /** A call that passed the filter, the method it resolves to and that method's code. */
  datatype Resolution = Resolution(call: Value, target: AbcMethod, code: Bytecode)

  // ---------------------------------------------------------------------
  // eligibility
  // ---------------------------------------------------------------------

  /** The receiver of the call is register 0, the scope object. */
  predicate ReceiverIsScope(c: Value)
  {
    c.Call? && c.obj.Local? && c.obj.index == 0
  }

  /** A multiname type whose name is known before run time. */
  predicate StaticallyNamed(t: Ty)
  {
    t.MultinameType? && t.runtimeName.None?
  }

  /** Not an external or native method. */
  predicate HasCode(m: AbcMethod)
  {
    m.body.Some? && m.body.value.code.Some?
  }

  /** The conditions, all together, under which a call can be inlined. */
  predicate Eligible(c: Value, typer: Typer)
  {
    && ReceiverIsScope(c)
    && StaticallyNamed(c.obj.ty)
    && StaticallyNamed(c.property.ty)
    && typer.findProperty(c.obj.ty, c.property.ty).Some?
    && HasCode(typer.findProperty(c.obj.ty, c.property.ty).value)
  }

  /**
   * The filter of the scan, check by check, each failing check skipping the
   * vertex.
   */
  function Resolve(payload: Value, typer: Typer): Option<Resolution>
  {
    match FindCall(payload)
    case None => None
    case Some(call) =>
      if !call.Call? || !call.obj.Local? || call.obj.index != 0 then None
      else if !call.obj.ty.MultinameType? then None
      else if !call.property.ty.MultinameType? then None
      else if call.obj.ty.runtimeName.Some? || call.property.ty.runtimeName.Some? then None
      else match typer.findProperty(call.obj.ty, call.property.ty)
        case None => None
        case Some(abc) =>
          if abc.body.None? || abc.body.value.code.None? then None
          else Some(Resolution(call, abc, abc.body.value.code.value))
  }

  /** `typer.toNativeType(abcMethod.returnType)`. */
  function ResultType(res: Resolution, typer: Typer): Ty
  {
    typer.toNativeType(res.target.returnType)
  }

  /**
   * A vertex passes the filter exactly when the first call of its payload
   * is eligible; the resolution then names that call, the method the typer
   * found and that method's code.
   */
  lemma ResolveExactly(payload: Value, typer: Typer)
    ensures Resolve(payload, typer).Some? <==>
      FindCall(payload).Some? && Eligible(FindCall(payload).value, typer)
    ensures Resolve(payload, typer).Some? ==>
      var res := Resolve(payload, typer).value;
      && res.call == FindCall(payload).value
      && typer.findProperty(res.call.obj.ty, res.call.property.ty) == Some(res.target)
      && res.target.body == Some(MethodBody(Some(res.code)))
  {
    FindCallIsFirst(payload);
  }

  /**
   * A call whose receiver or property name is only known at run time is
   * never inlined, whatever the typer says.
   */
  lemma RuntimeNamesAreSkipped(payload: Value, typer: Typer)
    requires FindCall(payload).Some? && FindCall(payload).value.Call?
    requires var c := FindCall(payload).value;
      (c.obj.Local? && c.obj.ty.MultinameType? && c.obj.ty.runtimeName.Some?)
      || (c.property.ty.MultinameType? && c.property.ty.runtimeName.Some?)
    ensures Resolve(payload, typer).None?
  {
  }

  // ---------------------------------------------------------------------
  // callee preparation
  // ---------------------------------------------------------------------

  /** What a return becomes: an assignment of its value to the result register. */
  function AsAssignment(kind: Kind, payload: Value, result: nat): Value
  {
    if kind == Default && payload.Return? then SetLocal(result, payload.value) else payload
  }

  /** One vertex per argument: vertex `j` assigns argument `j` to register `offset + 1 + j`. */
  ghost predicate BindsArguments(vs: seq<Vertex>, params: seq<Value>, offset: nat)
    reads set i | 0 <= i < |vs| :: vs[i]
  {
    && |vs| == |params|
    && forall j :: 0 <= j < |vs| ==> vs[j].kind == Default && vs[j].value == SetLocal(offset + 1 + j, params[j])
  }

  /** The vertices of a blueprint, with every register index shifted by `offset`. */
  ghost predicate Renumbered(vs: seq<Vertex>, bp: Blueprint, offset: nat)
    reads set i | 0 <= i < |vs| :: vs[i]
  {
    && |vs| == |bp.kinds| == |bp.payloads|
    && forall i :: 0 <= i < |vs| ==> vs[i].kind == bp.kinds[i] && vs[i].value == Shift(bp.payloads[i], offset)
  }

  /**
   * The argument loop of `manipulate`: one set-local vertex per argument,
   * each inserted before `insertPoint`, so that they run in argument order;
   * argument `i` is assigned to register `offset + 1 + i`.
   */
  method BindParameters(inlined: Method, insertPoint: Vertex, params: seq<Value>, offset: nat)
    returns (ghost bound: seq<Vertex>)
    requires inlined.Valid()
    modifies inlined
    ensures inlined.Valid()
    ensures inlined.vertices == old(inlined.vertices) + bound
    ensures fresh(bound)
    ensures BindsArguments(bound, params, offset)
    ensures inlined.edges == Chain(old(inlined.edges), insertPoint, bound)
    ensures inlined.locals == old(inlined.locals)
    ensures inlined.entry == old(inlined.entry) && inlined.exit == old(inlined.exit)
  {
    ghost var edges0 := inlined.edges;
    bound := [];
    var localIndex := 1;
    for i := 0 to |params|
      invariant localIndex == 1 + i
      invariant inlined.Valid()
      invariant inlined.vertices == old(inlined.vertices) + bound
      invariant fresh(bound)
      invariant |bound| == i
      invariant forall j :: 0 <= j < i ==> bound[j].kind == Default && bound[j].value == SetLocal(offset + 1 + j, params[j])
      invariant inlined.edges == Chain(edges0, insertPoint, bound)
      invariant inlined.locals == old(inlined.locals)
      invariant inlined.entry == old(inlined.entry) && inlined.exit == old(inlined.exit)
    {
      var v := new Vertex(Default, SetLocal(offset + localIndex, params[i]));
      localIndex := localIndex + 1;
      inlined.InsertBefore(insertPoint, v);
      ChainGrows(edges0, bound, insertPoint, v);
      bound := bound + [v];
    }
  }

  /**
   * The payloads of a callee built from `bp` with register offset `n` and
   * arguments `params`, before its returns are rewritten: the blueprint's,
   * shifted, then one assignment per argument.
   */
  function Loaded(bp: Blueprint, params: seq<Value>, n: nat): seq<Value>
  {
    seq(|bp.payloads|, i requires 0 <= i < |bp.payloads| => Shift(bp.payloads[i], n))
    + seq(|params|, j requires 0 <= j < |params| => SetLocal(n + 1 + j, params[j]))
  }

  /**
   * The payloads of a callee once `manipulate` has prepared it with result
   * register `n`: the blueprint's, shifted by `n`, with every Default
   * return turned into an assignment to register `n`, then one assignment
   * per argument, argument `j` to register `n + 1 + j`.
   */
  function CalleePayloads(bp: Blueprint, params: seq<Value>, n: nat): seq<Value>
    requires |bp.kinds| == |bp.payloads|
  {
    seq(|bp.payloads|, i requires 0 <= i < |bp.payloads| => AsAssignment(bp.kinds[i], Shift(bp.payloads[i], n), n))
    + seq(|params|, j requires 0 <= j < |params| => SetLocal(n + 1 + j, params[j]))
  }

  /** The payloads of a callee as `BuildCallee` leaves it are `Loaded`. */
  lemma LoadedPayloads(callee: Method, bp: Blueprint, params: seq<Value>, n: nat,
                       built: seq<Vertex>, bound: seq<Vertex>)
    requires callee.vertices == built + bound
    requires Renumbered(built, bp, n) && BindsArguments(bound, params, n)
    ensures |callee.vertices| == |Loaded(bp, params, n)|
    ensures forall i :: 0 <= i < |callee.vertices| ==> callee.vertices[i].value == Loaded(bp, params, n)[i]
  {
    forall i | 0 <= i < |callee.vertices|
      ensures callee.vertices[i].value == Loaded(bp, params, n)[i]
    {
      if i < |built| {
        assert callee.vertices[i] == built[i];
      } else {
        assert callee.vertices[i] == bound[i - |built|];
      }
    }
  }

  /**
   * Rewriting the returns of a loaded callee with result register `n`
   * leaves it with the payloads `CalleePayloads`.
   */
  lemma ReturnsRewritten(callee: Method, bp: Blueprint, params: seq<Value>, n: nat,
                         built: seq<Vertex>, bound: seq<Vertex>, insertPoint: Vertex)
    requires Wired(callee, bp, built, bound, insertPoint) && |bound| == |params|
    requires forall i :: 0 <= i < |callee.vertices| ==>
      callee.vertices[i].value == AsAssignment(callee.vertices[i].kind, Loaded(bp, params, n)[i], n)
    ensures |callee.vertices| == |CalleePayloads(bp, params, n)|
    ensures forall i :: 0 <= i < |callee.vertices| ==> callee.vertices[i].value == CalleePayloads(bp, params, n)[i]
  {
    forall i | 0 <= i < |callee.vertices|
      ensures callee.vertices[i].value == CalleePayloads(bp, params, n)[i]
    {
      if i < |built| {
        assert callee.vertices[i] == built[i];
      } else {
        assert callee.vertices[i] == bound[i - |built|];
      }
    }
  }

  /**
   * The shape of a prepared callee: its vertices are the built ones followed
   * by the argument vertices, its entry and exit are where the blueprint
   * puts them, `insertPoint` is the first vertex after the entry as built,
   * the argument chain is inserted before it, and the first vertex after the
   * entry is now the chain's first vertex, if there are arguments.
   */
  ghost predicate Wired(callee: Method, bp: Blueprint, built: seq<Vertex>, bound: seq<Vertex>, insertPoint: Vertex)
    reads callee
  {
    && WellFormed(bp) && |built| == |bp.kinds|
    && (forall i :: 0 <= i < |built| ==> built[i].kind == bp.kinds[i])
    && (forall j :: 0 <= j < |bound| ==> bound[j].kind == Default)
    && callee.vertices == built + bound
    && callee.entry == built[bp.entry] && callee.exit == built[bp.exit]
    && Successor(Wire(built, bp.links), callee.entry) == Some(insertPoint)
    && callee.edges == Chain(Wire(built, bp.links), insertPoint, bound)
    && callee.Source() == Some(if bound == [] then insertPoint else bound[0])
  }

  /**
   * `builder.build` followed by `locals.offset(offset)`: the callee as built,
   * with every register index shifted by `offset`.
   */
  method Load(bp: Blueprint, offset: nat) returns (callee: Method)
    requires WellFormed(bp)
    ensures fresh(callee) && callee.Valid() && callee.Source().Some?
    ensures callee.locals == ShiftRegisters(bp.registers, offset)
    ensures fresh(callee.vertices)
    ensures Renumbered(callee.vertices, bp, offset)
    ensures callee.edges == Wire(callee.vertices, bp.links)
    ensures callee.entry == callee.vertices[bp.entry] && callee.exit == callee.vertices[bp.exit]
  {
    callee := new Method.Build(bp);
    // renumber the callee's registers by the caller's register count
    callee.Offset(offset);
  }

  /**
   * Load the callee and bind the arguments in front of the first vertex
   * after its entry, `insertPoint`. With no arguments the callee stays as
   * loaded; otherwise the argument chain takes over every edge into
   * `insertPoint` and falls through to it.
   */
  method BuildCallee(bp: Blueprint, offset: nat, params: seq<Value>)
    returns (callee: Method, ghost built: seq<Vertex>, ghost bound: seq<Vertex>, ghost insertPoint: Vertex)
    requires WellFormed(bp)
    ensures fresh(callee) && callee.Valid() && callee.Source().Some?
    ensures callee.locals == ShiftRegisters(bp.registers, offset)
    ensures fresh(built) && fresh(bound)
    ensures Renumbered(built, bp, offset)
    ensures BindsArguments(bound, params, offset)
    ensures Wired(callee, bp, built, bound, insertPoint)
  {
    callee := Load(bp, offset);
    built := callee.vertices;
    var point := callee.Source().value;
    insertPoint := point;
    bound := BindParameters(callee, point, params, offset);
    if bound != [] {
      ChainTakesOver(Wire(built, bp.links), callee.entry, bound, point);
    } else {
      assert callee.edges == Wire(built, bp.links);
    }
  }

  /**
   * The return rewriting of `manipulate`: every Default vertex whose payload
   * is directly a return now assigns the returned value to `result`.
   */
  method RewriteReturns(inlined: Method, result: nat)
    requires inlined.Valid()
    modifies inlined.vertices
    ensures forall i :: 0 <= i < |inlined.vertices| ==>
      inlined.vertices[i].value == AsAssignment(inlined.vertices[i].kind, old(inlined.vertices[i].value), result)
    ensures forall i :: 0 <= i < |inlined.vertices| && inlined.vertices[i].kind == Default ==>
      !inlined.vertices[i].value.Return?
  {
    var vs := inlined.vertices;
    for i := 0 to |vs|
      invariant forall j :: 0 <= j < i ==> vs[j].value == AsAssignment(vs[j].kind, old(vs[j].value), result)
      invariant forall j :: i <= j < |vs| ==> vs[j].value == old(vs[j].value)
    {
      if vs[i].kind == Default && vs[i].value.Return? {
        vs[i].value := SetLocal(result, vs[i].value.value);
      }
    }
  }

  /**
   * The non-void branch of `manipulate`: allocate the result register,
   * typed with the return type, rewrite the callee's returns into
   * assignments to it and put it in place of the call in `vertex`.
   */
  method StoreResult(caller: Method, vertex: Vertex, call: Value, returnType: Ty, callee: Method,
                     ghost bp: Blueprint, ghost built: seq<Vertex>, ghost bound: seq<Vertex>, ghost insertPoint: Vertex)
    requires call.Call? && callee.Valid()
    requires Wired(callee, bp, built, bound, insertPoint) && |bound| == |call.params|
    requires vertex !in callee.vertices
    requires forall i :: 0 <= i < |callee.vertices| ==>
      callee.vertices[i].value == Loaded(bp, call.params, caller.NumRegisters())[i]
    modifies caller, vertex, callee.vertices
    ensures caller.locals == old(caller.locals) + [Register(old(caller.NumRegisters()), returnType)]
    ensures caller.vertices == old(caller.vertices) && caller.edges == old(caller.edges)
    ensures caller.entry == old(caller.entry) && caller.exit == old(caller.exit)
    ensures vertex.value == ReplaceBelow(old(vertex.value), call, Local(old(caller.NumRegisters()), returnType))
    ensures forall i :: 0 <= i < |callee.vertices| && callee.vertices[i].kind == Default ==>
      !callee.vertices[i].value.Return?
    ensures forall i :: 0 <= i < |callee.vertices| ==>
      callee.vertices[i].value == CalleePayloads(bp, call.params, old(caller.NumRegisters()))[i]
  {
    ghost var n := caller.NumRegisters();
    var value := vertex.value;
    var result := caller.CreateRegister(returnType);
    RewriteReturns(callee, result.index);
    vertex.value := ReplaceBelow(value, call, Local(result.index, result.ty));
    ReturnsRewritten(callee, bp, call.params, n, built, bound, insertPoint);
  }

  // ---------------------------------------------------------------------
  // the loops of `inline`
  // ---------------------------------------------------------------------

  /** The registers a callee contributes: all but the first, the scope register. */
  method ContributedRegisters(registers: seq<Register>) returns (r: seq<Register>)
    ensures r == Imported(registers)
  {
    r := [];
    var i := 1;
    while i < |registers|
      invariant 1 <= i
      invariant registers != [] ==> i <= |registers| && r == registers[1..i]
      invariant registers == [] ==> r == []
    {
      r := r + [registers[i]];
      i := i + 1;
    }
  }

  /** The callee's vertices except its entry and exit. */
  method CopyDefaultVertices(vs: seq<Vertex>) returns (r: seq<Vertex>)
    ensures r == DefaultVertices(vs)
  {
    r := [];
    for j := 0 to |vs|
      invariant r == DefaultVertices(vs[..j])
    {
      assert vs[..j + 1][..j] == vs[..j];
      if vs[j].kind == Default {
        r := r + [vs[j]];
      }
    }
    assert vs[..|vs|] == vs;
  }

  /** The callee's edges whose both ends are Default vertices. */
  method CopyDefaultEdges(es: seq<Edge>) returns (r: seq<Edge>)
    ensures r == DefaultEdges(es)
  {
    r := [];
    for j := 0 to |es|
      invariant r == DefaultEdges(es[..j])
    {
      assert es[..j + 1][..j] == es[..j];
      if es[j].start.kind == Default && es[j].end.kind == Default {
        r := r + [es[j]];
      }
    }
    assert es[..|es|] == es;
  }

  /** Every edge into `insertion` now ends at `source`. */
  method RedirectInto(es: seq<Edge>, insertion: Vertex, source: Vertex) returns (r: seq<Edge>)
    ensures r == Redirect(es, insertion, source)
  {
    r := es;
    for j := 0 to |es|
      invariant |r| == |es|
      invariant forall l :: 0 <= l < j ==>
        r[l] == if es[l].end == insertion then Edge(es[l].start, source) else es[l]
      invariant forall l :: j <= l < |es| ==> r[l] == es[l]
    {
      if es[j].end == insertion {
        r := r[j := Edge(es[j].start, source)];
      }
    }
    RedirectPointwise(es, insertion, source);
  }

  /** One edge to `insertion` from every predecessor of the callee's exit. */
  method FallThrough(es: seq<Edge>, exit: Vertex, insertion: Vertex) returns (r: seq<Edge>)
    ensures r == ExitEdges(es, exit, insertion)
  {
    r := [];
    for j := 0 to |es|
      invariant r == ExitEdges(es[..j], exit, insertion)
    {
      assert es[..j + 1][..j] == es[..j];
      if es[j].end == exit {
        r := r + [Edge(es[j].start, insertion)];
      }
    }
    assert es[..|es|] == es;
  }

  // ---------------------------------------------------------------------
  // the pass
  // ---------------------------------------------------------------------

  /**
   * What `inline` reads from a prepared callee, and the call-site vertex;
   * `payloads` are the payloads its vertices carry.
   */
  datatype Splice = Splice(
    site: Vertex,
    locals: seq<Register>,
    vertices: seq<Vertex>,
    payloads: seq<Value>,
    edges: seq<Edge>,
    source: Vertex,
    exit: Vertex)

  function Snapshot(site: Vertex, callee: Method, payloads: seq<Value>): (s: Splice)
    requires callee.Source().Some?
    reads callee
  {
    Splice(site, callee.locals, callee.vertices, payloads, callee.edges, callee.Source().value, callee.exit)
  }

  /** The registers after a sequence of splices: each adds its callee's registers but the first. */
  function SplicedLocals(ls: seq<Register>, ss: seq<Splice>): seq<Register>
  {
    if ss == [] then ls else SplicedLocals(ls, ss[..|ss| - 1]) + Imported(ss[|ss| - 1].locals)
  }

  /** The vertices after a sequence of splices: each adds its callee's Default vertices. */
  function SplicedVertices(vs: seq<Vertex>, ss: seq<Splice>): seq<Vertex>
  {
    if ss == [] then vs else SplicedVertices(vs, ss[..|ss| - 1]) + DefaultVertices(ss[|ss| - 1].vertices)
  }

  /** The edge list after one splice. */
  function SpliceEdges(es: seq<Edge>, s: Splice): seq<Edge>
  {
    Redirect(es + DefaultEdges(s.edges), s.site, s.source) + ExitEdges(s.edges, s.exit, s.site)
  }

  /** The edge list after a sequence of splices. */
  function SplicedEdges(es: seq<Edge>, ss: seq<Splice>): seq<Edge>
  {
    if ss == [] then es else SpliceEdges(SplicedEdges(es, ss[..|ss| - 1]), ss[|ss| - 1])
  }

  /**
   * Splicing adds Default vertices only: the number of Entry and of Exit
   * vertices of the caller is unchanged.
   */
  lemma {:induction false} SplicedVerticesKeepKinds(vs: seq<Vertex>, ss: seq<Splice>, k: Kind)
    requires k != Default
    ensures CountKind(SplicedVertices(vs, ss), k) == CountKind(vs, k)
  {
    if ss != [] {
      SplicedVerticesKeepKinds(vs, ss[..|ss| - 1], k);
      CountKindAppend(SplicedVertices(vs, ss[..|ss| - 1]), DefaultVertices(ss[|ss| - 1].vertices), k);
      CountKindDefaultVertices(ss[|ss| - 1].vertices, k);
    }
  }

  /**
   * Splicing only appends: the caller's vertices, the call sites among
   * them, stay in place.
   */
  lemma {:induction false} SplicedVerticesExtend(vs: seq<Vertex>, ss: seq<Splice>)
    ensures |vs| <= |SplicedVertices(vs, ss)| && SplicedVertices(vs, ss)[..|vs|] == vs
  {
    if ss != [] {
      SplicedVerticesExtend(vs, ss[..|ss| - 1]);
    }
  }

  /** A vertex found neither among `vs` nor among the callees' is not among the spliced ones. */
  lemma {:induction false} SplicedVerticesAvoid(vs: seq<Vertex>, ss: seq<Splice>, x: Vertex)
    requires x !in vs
    requires forall k, m :: 0 <= k < |ss| && 0 <= m < |ss[k].vertices| ==> ss[k].vertices[m] != x
    ensures x !in SplicedVertices(vs, ss)
  {
    if ss != [] {
      SplicedVerticesAvoid(vs, ss[..|ss| - 1], x);
      DefaultVerticesExactly(ss[|ss| - 1].vertices);
    }
  }

  /**
   * Splicing keeps the caller's vertex list free of repetitions when every
   * callee's list is, no callee vertex is the caller's and no two callees
   * share a vertex.
   */
  lemma {:induction false} SplicedVerticesDistinct(vs: seq<Vertex>, ss: seq<Splice>)
    requires Distinct(vs) && Apart(ss, vs) && Separate(ss)
    ensures Distinct(SplicedVertices(vs, ss))
  {
    if ss != [] {
      var init, last := ss[..|ss| - 1], ss[|ss| - 1];
      SplicedVerticesDistinct(vs, init);
      DefaultVerticesDistinct(last.vertices);
      var added := DefaultVertices(last.vertices);
      forall j | 0 <= j < |added|
        ensures added[j] !in SplicedVertices(vs, init)
      {
        DefaultVerticesExactly(last.vertices);
        assert added[j] in added;
        SplicedVerticesAvoid(vs, init, added[j]);
      }
      DistinctAppend(SplicedVertices(vs, init), added);
    }
  }

  /**
   * Splicing keeps what makes the caller a graph: its vertices stay
   * distinct, and its entry and exit stay among them.
   */
  lemma SplicedKeepsGraph(vs: seq<Vertex>, ss: seq<Splice>, entry: Vertex, exit: Vertex)
    requires Distinct(vs) && Apart(ss, vs) && Separate(ss)
    requires entry in vs && exit in vs
    ensures Distinct(SplicedVertices(vs, ss))
    ensures entry in SplicedVertices(vs, ss) && exit in SplicedVertices(vs, ss)
  {
    SplicedVerticesDistinct(vs, ss);
    SplicedVerticesExtend(vs, ss);
    assert SplicedVertices(vs, ss)[..|vs|] == vs;
  }

  /**
   * One splice: an edge of the caller into the call site now enters the
   * callee's first vertex; any other edge of the caller stays as it was.
   */
  lemma SpliceEdgesRedirect(es: seq<Edge>, s: Splice, i: nat)
    requires i < |es|
    ensures SpliceEdges(es, s)[i] == if es[i].end == s.site then Edge(es[i].start, s.source) else es[i]
  {
    RedirectAt(es + DefaultEdges(s.edges), s.site, s.source, i);
    assert (es + DefaultEdges(s.edges))[i] == es[i];
  }

  /**
   * The outcome `d` of the filter is a method that returns a value: the
   * vertex becomes an inline target.
   */
  predicate Selected(d: Option<Resolution>, typer: Typer)
  {
    d.Some? && ResultType(d.value, typer) != VoidType
  }

  /**
   * `s` is the callee built from `bp` and prepared with result register
   * `n`: its code is `AssembledCode` and its graph `AssembledGraph`.
   */
  ghost predicate Assembled(bp: Blueprint, params: seq<Value>, n: nat, s: Splice)
  {
    AssembledCode(bp, params, n, s) && AssembledGraph(bp, params, s)
  }

  /**
   * The registers of `s` are those of `bp` shifted by `n`; its vertices are
   * the built ones, with every register shifted by `n` and every Default
   * return turned into an assignment to register `n`, followed by one
   * vertex per argument, argument `j` assigned to register `n + 1 + j`.
   */
  ghost predicate AssembledCode(bp: Blueprint, params: seq<Value>, n: nat, s: Splice)
  {
    var m := |bp.kinds|;
    && |bp.payloads| == m
    && s.locals == ShiftRegisters(bp.registers, n)
    && |s.vertices| == |s.payloads| == m + |params|
    && (forall i :: 0 <= i < m ==>
          s.vertices[i].kind == bp.kinds[i] && s.payloads[i] == AsAssignment(bp.kinds[i], Shift(bp.payloads[i], n), n))
    && (forall j :: 0 <= j < |params| ==> s.payloads[m + j] == SetLocal(n + 1 + j, params[j]))
    && (forall i :: m <= i < |s.vertices| ==> s.vertices[i].kind == Default)
  }

  /**
   * The edges of `s` are those of `bp` over `built` with the argument chain
   * `bound` inserted before the first vertex after the entry; `inline` will
   * enter the callee at the chain's head, or at that vertex with no
   * arguments.
   */
  ghost predicate Threaded(bp: Blueprint, built: seq<Vertex>, bound: seq<Vertex>, s: Splice)
    requires WellFormed(bp) && |built| == |bp.kinds|
  {
    var point := Successor(Wire(built, bp.links), built[bp.entry]);
    && point.Some?
    && s.edges == Chain(Wire(built, bp.links), point.value, bound)
    && s.source == if bound == [] then point.value else bound[0]
  }

  /**
   * The vertices of `s` are the blueprint's followed by one per argument,
   * threaded as `Threaded` says, and its exit is the blueprint's.
   */
  ghost predicate AssembledGraph(bp: Blueprint, params: seq<Value>, s: Splice)
  {
    var m := |bp.kinds|;
    && WellFormed(bp)
    && |s.vertices| == m + |params|
    && s.exit == s.vertices[bp.exit]
    // `Threaded` at the split point, unfolded only where a proof names it
    && forall k {:trigger Threaded(bp, s.vertices[..k], s.vertices[k..], s)} ::
         k == m ==> Threaded(bp, s.vertices[..k], s.vertices[k..], s)
  }

  /** A callee shaped as `Expand` leaves it is recorded as `Assembled`. */
  lemma SnapshotAssembled(site: Vertex, callee: Method, bp: Blueprint, params: seq<Value>, n: nat,
                          built: seq<Vertex>, bound: seq<Vertex>, insertPoint: Vertex)
    requires Wired(callee, bp, built, bound, insertPoint) && |bound| == |params|
    requires callee.locals == ShiftRegisters(bp.registers, n)
    ensures Assembled(bp, params, n, Snapshot(site, callee, CalleePayloads(bp, params, n)))
  {
    var s := Snapshot(site, callee, CalleePayloads(bp, params, n));
    assert forall j :: 0 <= j < |params| ==> s.payloads[|built| + j] == SetLocal(n + 1 + j, params[j]);
    forall i | |built| <= i < |s.vertices|
      ensures s.vertices[i].kind == Default
    {
      assert s.vertices[i] == bound[i - |built|];
    }
    GraphAssembled(bp, params, s, built, bound, insertPoint);
  }

  lemma GraphAssembled(bp: Blueprint, params: seq<Value>, s: Splice,
                       built: seq<Vertex>, bound: seq<Vertex>, insertPoint: Vertex)
    requires WellFormed(bp) && |built| == |bp.kinds| && |bound| == |params|
    requires s.vertices == built + bound
    requires s.exit == built[bp.exit]
    requires Successor(Wire(built, bp.links), built[bp.entry]) == Some(insertPoint)
    requires s.edges == Chain(Wire(built, bp.links), insertPoint, bound)
    requires s.source == if bound == [] then insertPoint else bound[0]
    ensures AssembledGraph(bp, params, s)
  {
    assert s.vertices[..|bp.kinds|] == built && s.vertices[|bp.kinds|..] == bound;
  }

  /**
   * A vertex whose payload was `payload` and whose call resolved to `res`
   * was prepared with result register `n`: `result` is register `n` typed
   * with the callee's return type, the payload is now `rewritten`, with the
   * result register in place of the call, and `s` records the callee
   * assembled for the call with the same register `n`.
   */
  ghost predicate Prepared(payload: Value, rewritten: Value, res: Resolution, typer: Typer,
                           build: Bytecode -> Blueprint, n: nat, result: Register, s: Splice)
  {
    && res.call.Call?
    && result == Register(n, ResultType(res, typer))
    && rewritten == ReplaceBelow(payload, res.call, Local(n, result.ty))
    // `Assembled` with register `n`, unfolded only where a proof names it
    && forall r {:trigger Assembled(build(res.code), res.call.params, r, s)} ::
         r == n ==> Assembled(build(res.code), res.call.params, r, s)
  }

  /**
   * The result register links the two halves of a prepared call: where the
   * call sat below the root of the payload the register now stands, and
   * every Default return of the callee now assigns its renumbered value to
   * that same register.
   */
  lemma ResultConnects(payload: Value, rewritten: Value, res: Resolution, typer: Typer,
                       build: Bytecode -> Blueprint, n: nat, result: Register, s: Splice, i: nat)
    requires Prepared(payload, rewritten, res, typer, build, n, result, s)
    requires OccursBelow(res.call, payload)
    requires i < |build(res.code).kinds| == |build(res.code).payloads|
    requires build(res.code).kinds[i] == Default && build(res.code).payloads[i].Return?
    ensures OccursBelow(Local(result.index, result.ty), rewritten)
    ensures i < |s.payloads| && s.payloads[i] == SetLocal(result.index, Shift(build(res.code).payloads[i].value, n))
  {
    assert Assembled(build(res.code), res.call.params, n, s);
    ReplaceBelowLands(payload, res.call, Local(n, result.ty));
  }

  /**
   * Renumbering moves the callee's scope register 0 to index `n`, which is
   * the caller's result register: a callee vertex that reads its scope
   * object reads the result register once prepared.
   */
  lemma ScopeReadsResult(payload: Value, rewritten: Value, res: Resolution, typer: Typer,
                         build: Bytecode -> Blueprint, n: nat, result: Register, s: Splice, i: nat)
    requires Prepared(payload, rewritten, res, typer, build, n, result, s)
    requires i < |build(res.code).kinds| == |build(res.code).payloads|
    requires 0 in Registers(build(res.code).payloads[i])
    ensures i < |s.payloads| && result.index in Registers(s.payloads[i])
  {
    var bp := build(res.code);
    assert Assembled(bp, res.call.params, n, s);
    ShiftMovesRegisters(bp.payloads[i], n);
    assert 0 + n in ShiftSet(Registers(bp.payloads[i]), n);
  }

  /** The positions below `m` whose filter outcomes are selected, in increasing order. */
  function Picks(decisions: seq<Option<Resolution>>, typer: Typer, m: nat): seq<nat>
    requires m <= |decisions|
  {
    if m == 0 then []
    else Picks(decisions, typer, m - 1) + if Selected(decisions[m - 1], typer) then [m - 1] else []
  }

  /**
   * The picks are exactly the selected positions below `m`, each once and in
   * increasing order.
   */
  lemma {:induction false} PicksExactly(decisions: seq<Option<Resolution>>, typer: Typer, m: nat)
    requires m <= |decisions|
    ensures forall k :: 0 <= k < |Picks(decisions, typer, m)| ==> Picks(decisions, typer, m)[k] < m
    ensures forall k, l :: 0 <= k < l < |Picks(decisions, typer, m)| ==>
      Picks(decisions, typer, m)[k] < Picks(decisions, typer, m)[l]
    ensures forall j :: 0 <= j < m ==> (j in Picks(decisions, typer, m) <==> Selected(decisions[j], typer))
  {
    if m > 0 {
      PicksExactly(decisions, typer, m - 1);
    }
  }

  /** With no selected position below `m` there are no picks. */
  lemma {:induction false} PicksNone(decisions: seq<Option<Resolution>>, typer: Typer, m: nat)
    requires m <= |decisions|
    requires forall j :: 0 <= j < m ==> !Selected(decisions[j], typer)
    ensures Picks(decisions, typer, m) == []
  {
    if m > 0 {
      PicksNone(decisions, typer, m - 1);
    }
  }

  /**
   * The outcome of scanning the first `i` of the vertices whose payloads
   * were `payloads` and whose filter outcomes are `decisions`: the targets
   * are at the selected positions, in order; target `k` was prepared with
   * result register `n0 + k`; every other payload is untouched.
   */
  ghost predicate ScanOutcome(payloads: seq<Value>, decisions: seq<Option<Resolution>>, rewritten: seq<Value>,
                              scanned: seq<nat>, results: seq<Register>, splices: seq<Splice>,
                              typer: Typer, build: Bytecode -> Blueprint, n0: nat, i: nat)
  {
    && |payloads| == |decisions| == |rewritten| && i <= |decisions|
    && scanned == Picks(decisions, typer, i)
    && |results| == |splices| == |scanned|
    && (forall j :: 0 <= j < |payloads| && (i <= j || !Selected(decisions[j], typer)) ==> rewritten[j] == payloads[j])
    && (forall k :: 0 <= k < |scanned| ==>
          && scanned[k] < i && decisions[scanned[k]].Some?
          && Prepared(payloads[scanned[k]], rewritten[scanned[k]], decisions[scanned[k]].value, typer, build,
                      n0 + k, results[k], splices[k]))
  }

  /**
   * What a finished scan means: a vertex is a target exactly when its
   * filter outcome is selected, at most once, and the targets are in
   * vertex order; target `k` owns result register `n0 + k`; a vertex that
   * is not a target keeps its payload.
   */
  lemma ScanOutcomeMeans(payloads: seq<Value>, decisions: seq<Option<Resolution>>, rewritten: seq<Value>,
                         scanned: seq<nat>, results: seq<Register>, splices: seq<Splice>,
                         typer: Typer, build: Bytecode -> Blueprint, n0: nat)
    requires ScanOutcome(payloads, decisions, rewritten, scanned, results, splices, typer, build, n0, |decisions|)
    ensures forall j :: 0 <= j < |decisions| ==> (j in scanned <==> Selected(decisions[j], typer))
    ensures forall k, l :: 0 <= k < l < |scanned| ==> scanned[k] < scanned[l]
    ensures forall k :: 0 <= k < |results| ==> results[k].index == n0 + k
    ensures forall j :: 0 <= j < |payloads| && j !in scanned ==> rewritten[j] == payloads[j]
  {
    PicksExactly(decisions, typer, |decisions|);
  }

  /** When no vertex is selected, the pass records no target and rewrites nothing. */
  lemma NothingSelectedNothingChanges(payloads: seq<Value>, decisions: seq<Option<Resolution>>, rewritten: seq<Value>,
                                      scanned: seq<nat>, results: seq<Register>, splices: seq<Splice>,
                                      typer: Typer, build: Bytecode -> Blueprint, n0: nat)
    requires ScanOutcome(payloads, decisions, rewritten, scanned, results, splices, typer, build, n0, |decisions|)
    requires forall j :: 0 <= j < |decisions| ==> !Selected(decisions[j], typer)
    ensures scanned == [] && results == [] && splices == [] && rewritten == payloads
  {
    PicksNone(decisions, typer, |decisions|);
  }

  /** Before the scan nothing is rewritten. */
  lemma ScanOutcomeStarts(payloads: seq<Value>, decisions: seq<Option<Resolution>>,
                          typer: Typer, build: Bytecode -> Blueprint, n0: nat)
    requires |payloads| == |decisions|
    ensures ScanOutcome(payloads, decisions, payloads, [], [], [], typer, build, n0, 0)
  {
  }

  /** A vertex that is not selected is skipped. */
  lemma ScanOutcomeSkips(payloads: seq<Value>, decisions: seq<Option<Resolution>>, rewritten: seq<Value>,
                         scanned: seq<nat>, results: seq<Register>, splices: seq<Splice>,
                         typer: Typer, build: Bytecode -> Blueprint, n0: nat, i: nat)
    requires ScanOutcome(payloads, decisions, rewritten, scanned, results, splices, typer, build, n0, i)
    requires i < |decisions| && !Selected(decisions[i], typer)
    ensures ScanOutcome(payloads, decisions, rewritten, scanned, results, splices, typer, build, n0, i + 1)
  {
  }

  /**
   * A selected vertex becomes the next target: its payload is rewritten
   * with the next result register.
   */
  lemma ScanOutcomeGrows(payloads: seq<Value>, decisions: seq<Option<Resolution>>, rewritten: seq<Value>,
                         scanned: seq<nat>, results: seq<Register>, splices: seq<Splice>,
                         typer: Typer, build: Bytecode -> Blueprint, n0: nat, i: nat,
                         before: Value, n: nat, res: Resolution, value: Value, result: Register, splice: Splice)
    requires ScanOutcome(payloads, decisions, rewritten, scanned, results, splices, typer, build, n0, i)
    requires i < |decisions| && decisions[i] == Some(res) && Selected(decisions[i], typer)
    requires before == payloads[i] && n == n0 + |scanned|
    requires Prepared(before, value, res, typer, build, n, result, splice)
    ensures ScanOutcome(payloads, decisions, rewritten[i := value], scanned + [i], results + [result],
                        splices + [splice], typer, build, n0, i + 1)
  {
    var rewritten', scanned', results', splices' := rewritten[i := value], scanned + [i], results + [result], splices + [splice];
    forall k | 0 <= k < |scanned'|
      ensures && scanned'[k] < i + 1 && decisions[scanned'[k]].Some?
              && Prepared(payloads[scanned'[k]], rewritten'[scanned'[k]], decisions[scanned'[k]].value, typer, build,
                          n0 + k, results'[k], splices'[k])
    {
      if k < |scanned| {
        assert scanned'[k] == scanned[k] && results'[k] == results[k] && splices'[k] == splices[k];
        assert rewritten'[scanned[k]] == rewritten[scanned[k]];
      }
    }
  }

  /** No vertex of a recorded callee is one of `vertices`. */
  ghost predicate Apart(splices: seq<Splice>, vertices: seq<Vertex>)
  {
    forall k, m :: 0 <= k < |splices| && 0 <= m < |splices[k].vertices| ==> splices[k].vertices[m] !in vertices
  }

  lemma ApartGrows(splices: seq<Splice>, vertices: seq<Vertex>, s: Splice)
    requires Apart(splices, vertices)
    requires forall m :: 0 <= m < |s.vertices| ==> s.vertices[m] !in vertices
    ensures Apart(splices + [s], vertices)
  {
  }

  /** Each recorded callee's vertices are distinct, and no two callees share a vertex. */
  ghost predicate Separate(splices: seq<Splice>)
  {
    && (forall k :: 0 <= k < |splices| ==> Distinct(splices[k].vertices))
    && (forall k, l, m, p :: 0 <= k < l < |splices| && 0 <= m < |splices[k].vertices| && 0 <= p < |splices[l].vertices| ==>
          splices[k].vertices[m] != splices[l].vertices[p])
  }

  lemma SeparateGrows(splices: seq<Splice>, s: Splice)
    requires Separate(splices) && Distinct(s.vertices)
    requires forall k, m, p :: 0 <= k < |splices| && 0 <= m < |splices[k].vertices| && 0 <= p < |s.vertices| ==>
      splices[k].vertices[m] != s.vertices[p]
    ensures Separate(splices + [s])
  {
  }

  /** The vertices of every recorded callee carry the recorded payloads. */
  ghost predicate Carries(splices: seq<Splice>)
    reads set k, m | 0 <= k < |splices| && 0 <= m < |splices[k].vertices| :: splices[k].vertices[m]
  {
    forall k :: 0 <= k < |splices| ==>
      && |splices[k].payloads| == |splices[k].vertices|
      && forall m :: 0 <= m < |splices[k].vertices| ==> splices[k].vertices[m].value == splices[k].payloads[m]
  }

  lemma CarriesGrows(splices: seq<Splice>, s: Splice)
    requires Carries(splices) && |s.payloads| == |s.vertices|
    requires forall m :: 0 <= m < |s.vertices| ==> s.vertices[m].value == s.payloads[m]
    ensures Carries(splices + [s])
  {
  }

  /** Target `k` is the vertex at position `scanned[k]`, and so is the site of `splices[k]`. */
  ghost predicate Sited(found: seq<InlineTarget>, vertices: seq<Vertex>, scanned: seq<nat>, splices: seq<Splice>)
  {
    && |found| == |scanned| == |splices|
    && forall k :: 0 <= k < |found| ==>
         scanned[k] < |vertices| && found[k].vertex == vertices[scanned[k]] == splices[k].site
  }

  lemma SitedGrows(found: seq<InlineTarget>, vertices: seq<Vertex>, scanned: seq<nat>, splices: seq<Splice>,
                   t: InlineTarget, i: nat, s: Splice)
    requires Sited(found, vertices, scanned, splices)
    requires i < |vertices| && t.vertex == vertices[i] == s.site
    ensures Sited(found + [t], vertices, scanned + [i], splices + [s])
  {
  }

  /** `splices[k]` is what `inline` will read from the callee of target `k`, one of `callees`. */
  ghost predicate Snapshots(found: seq<InlineTarget>, splices: seq<Splice>, callees: set<Method>)
    reads callees
  {
    && |found| == |splices|
    && forall k :: 0 <= k < |found| ==>
         && found[k].callee in callees
         && found[k].callee.Source().Some?
         && splices[k] == Snapshot(found[k].vertex, found[k].callee, splices[k].payloads)
  }

  lemma SnapshotsGrow(found: seq<InlineTarget>, splices: seq<Splice>, callees: set<Method>, t: InlineTarget, s: Splice)
    requires Snapshots(found, splices, callees)
    requires t.callee.Source().Some? && s == Snapshot(t.vertex, t.callee, s.payloads)
    ensures Snapshots(found + [t], splices + [s], callees + {t.callee})
  {
  }

  /**
   * The state of the scan after the first `i` vertices: its outcome so far,
   * target `k` sited at its vertex, what was recorded of each callee still
   * what the callee holds, no recorded callee vertex among `vertices`, and
   * no vertex shared by two callees.
   */
  ghost predicate Scanned(found: seq<InlineTarget>, vertices: seq<Vertex>, payloads: seq<Value>,
                          decisions: seq<Option<Resolution>>, rewritten: seq<Value>, scanned: seq<nat>,
                          results: seq<Register>, splices: seq<Splice>, callees: set<Method>,
                          typer: Typer, build: Bytecode -> Blueprint, n0: nat, i: nat)
    reads callees, set k, m | 0 <= k < |splices| && 0 <= m < |splices[k].vertices| :: splices[k].vertices[m]
  {
    && ScanOutcome(payloads, decisions, rewritten, scanned, results, splices, typer, build, n0, i)
    && Sited(found, vertices, scanned, splices)
    && Snapshots(found, splices, callees)
    && Apart(splices, vertices)
    && Separate(splices)
    && Carries(splices)
  }

  /**
   * `Scanned` at `i`, stated so that a proof sees its parts only where it
   * names `Scanned` itself: the scan loop carries it without unfolding it.
   * Only the lengths are in the open.
   */
  ghost predicate Scanning(found: seq<InlineTarget>, vertices: seq<Vertex>, payloads: seq<Value>,
                           decisions: seq<Option<Resolution>>, rewritten: seq<Value>, scanned: seq<nat>,
                           results: seq<Register>, splices: seq<Splice>, callees: set<Method>,
                           typer: Typer, build: Bytecode -> Blueprint, n0: nat, i: nat)
    reads callees, set k, m | 0 <= k < |splices| && 0 <= m < |splices[k].vertices| :: splices[k].vertices[m]
  {
    && |payloads| == |decisions| == |rewritten| && i <= |decisions|
    && |results| == |scanned| == |splices| == |found|
    && forall j {:trigger Scanned(found, vertices, payloads, decisions, rewritten, scanned, results, splices, callees,
                               typer, build, n0, j)} ::
         j == i ==> Scanned(found, vertices, payloads, decisions, rewritten, scanned, results, splices, callees,
                            typer, build, n0, j)
  }

  /**
   * During the scan the next vertex still holds its payload, and none of
   * `vertices` belongs to a recorded callee.
   */
  lemma ScanningApart(found: seq<InlineTarget>, vertices: seq<Vertex>, payloads: seq<Value>,
                      decisions: seq<Option<Resolution>>, rewritten: seq<Value>, scanned: seq<nat>,
                      results: seq<Register>, splices: seq<Splice>, callees: set<Method>,
                      typer: Typer, build: Bytecode -> Blueprint, n0: nat, i: nat)
    requires Scanning(found, vertices, payloads, decisions, rewritten, scanned, results, splices, callees, typer, build, n0, i)
    ensures i < |payloads| ==> rewritten[i] == payloads[i]
    ensures forall k, m :: 0 <= k < |splices| && 0 <= m < |splices[k].vertices| ==> splices[k].vertices[m] !in vertices
  {
    assert Scanned(found, vertices, payloads, decisions, rewritten, scanned, results, splices, callees, typer, build, n0, i);
  }

  lemma ScannedSkips(found: seq<InlineTarget>, vertices: seq<Vertex>, payloads: seq<Value>,
                     decisions: seq<Option<Resolution>>, rewritten: seq<Value>, scanned: seq<nat>,
                     results: seq<Register>, splices: seq<Splice>, callees: set<Method>,
                     typer: Typer, build: Bytecode -> Blueprint, n0: nat, i: nat)
    requires Scanning(found, vertices, payloads, decisions, rewritten, scanned, results, splices, callees, typer, build, n0, i)
    requires i < |decisions| && !Selected(decisions[i], typer)
    ensures Scanning(found, vertices, payloads, decisions, rewritten, scanned, results, splices, callees, typer, build, n0, i + 1)
  {
    assert Scanned(found, vertices, payloads, decisions, rewritten, scanned, results, splices, callees, typer, build, n0, i);
    ScanOutcomeSkips(payloads, decisions, rewritten, scanned, results, splices, typer, build, n0, i);
  }

  lemma ScannedGrows(found: seq<InlineTarget>, vertices: seq<Vertex>, payloads: seq<Value>,
                     decisions: seq<Option<Resolution>>, rewritten: seq<Value>, scanned: seq<nat>,
                     results: seq<Register>, splices: seq<Splice>, callees: set<Method>,
                     typer: Typer, build: Bytecode -> Blueprint, n0: nat, i: nat,
                     before: Value, n: nat, res: Resolution, value: Value, result: Register,
                     t: InlineTarget, splice: Splice)
    requires Scanning(found, vertices, payloads, decisions, rewritten, scanned, results, splices, callees, typer, build, n0, i)
    requires i < |vertices| && t.vertex == vertices[i] == splice.site
    requires i < |decisions| && decisions[i] == Some(res) && Selected(decisions[i], typer)
    requires before == payloads[i] && n == n0 + |scanned|
    requires Prepared(before, value, res, typer, build, n, result, splice)
    requires t.callee.Source().Some? && splice == Snapshot(t.vertex, t.callee, splice.payloads)
    requires forall m :: 0 <= m < |splice.vertices| ==> splice.vertices[m] !in vertices
    requires Distinct(splice.vertices)
    requires forall k, m, p :: 0 <= k < |splices| && 0 <= m < |splices[k].vertices| && 0 <= p < |splice.vertices| ==>
      splices[k].vertices[m] != splice.vertices[p]
    requires |splice.payloads| == |splice.vertices|
    requires forall m :: 0 <= m < |splice.vertices| ==> splice.vertices[m].value == splice.payloads[m]
    ensures Scanning(found + [t], vertices, payloads, decisions, rewritten[i := value], scanned + [i], results + [result],
                     splices + [splice], callees + {t.callee}, typer, build, n0, i + 1)
  {
    assert Scanned(found, vertices, payloads, decisions, rewritten, scanned, results, splices, callees, typer, build, n0, i);
    ScanOutcomeGrows(payloads, decisions, rewritten, scanned, results, splices, typer, build, n0,
                     i, before, n, res, value, result, splice);
    SitedGrows(found, vertices, scanned, splices, t, i, splice);
    SnapshotsGrow(found, splices, callees, t, splice);
    ApartGrows(splices, vertices, splice);
    SeparateGrows(splices, splice);
    CarriesGrows(splices, splice);
  }

  class InlineExpansion {
    var changed: bool

    constructor ()
      ensures !changed
    {
      changed := false;
    }

    /**
     * `inline`: splice a prepared callee into `target` in front of the
     * vertex `insertion`: its registers but the scope register, its Default
     * vertices, the edges between them; the edges into `insertion` enter the
     * callee's first vertex instead, and every predecessor of the callee's
     * exit falls through to `insertion`.
     */
    method Inline(target: Method, insertion: Vertex, inlined: Method)
      requires target != inlined
      requires inlined.Source().Some?
      modifies target
      ensures target.locals == old(target.locals) + Imported(inlined.locals)
      ensures target.vertices == old(target.vertices) + DefaultVertices(inlined.vertices)
      ensures target.edges ==
        Redirect(old(target.edges) + DefaultEdges(inlined.edges), insertion, inlined.Source().value)
        + ExitEdges(inlined.edges, inlined.exit, insertion)
      ensures target.entry == old(target.entry) && target.exit == old(target.exit)
      // a callee that shares no vertex with the target keeps the target a well-formed graph
      ensures old(target.Valid()) && Distinct(inlined.vertices) &&
              (forall m :: 0 <= m < |inlined.vertices| ==> inlined.vertices[m] !in old(target.vertices)) ==>
              target.Valid()
    {
      ghost var before := target.vertices;
      var registers := ContributedRegisters(inlined.locals);
      target.locals := target.locals + registers;
      var vertices := CopyDefaultVertices(inlined.vertices);
      target.vertices := target.vertices + vertices;
      if Distinct(before) && Distinct(inlined.vertices) &&
         forall m :: 0 <= m < |inlined.vertices| ==> inlined.vertices[m] !in before
      {
        DefaultVerticesDistinct(inlined.vertices);
        DefaultVerticesExactly(inlined.vertices);
        forall j | 0 <= j < |vertices|
          ensures vertices[j] !in before
        {
          assert vertices[j] in vertices;
        }
        DistinctAppend(before, vertices);
      }
      var edges := CopyDefaultEdges(inlined.edges);
      target.edges := target.edges + edges;
      var source := inlined.Source().value;
      target.edges := RedirectInto(target.edges, insertion, source);
      var exits := FallThrough(inlined.edges, inlined.exit, insertion);
      target.edges := target.edges + exits;
    }

    /**
     * The body of the scan loop of `manipulate` for one vertex: the filter,
     * then `Expand` for a vertex that passes it. The vertex becomes a target
     * exactly when its call is selected; `result` is then the register now
     * standing in place of the call and `splice` what `inline` will read
     * from the prepared callee.
     */
    method PrepareCandidate(caller: Method, vertex: Vertex, typer: Typer, build: Bytecode -> Blueprint,
                            ghost d: Option<Resolution>)
      returns (target: Option<InlineTarget>, ghost result: Register, ghost splice: Splice)
      requires forall code :: WellFormed(build(code))
      requires d == Resolve(vertex.value, typer)
      modifies caller, vertex
      ensures target.Some? <==> Selected(d, typer)
      ensures target.None? ==> unchanged(caller) && unchanged(vertex)
      ensures caller.vertices == old(caller.vertices) && caller.edges == old(caller.edges)
      ensures caller.entry == old(caller.entry) && caller.exit == old(caller.exit)
      ensures target.Some? ==>
        && target.value.vertex == vertex
        && fresh(target.value.callee)
        && target.value.callee.Source().Some?
        && splice == Snapshot(vertex, target.value.callee, splice.payloads)
        && fresh(splice.vertices) && Distinct(splice.vertices)
        && caller.locals == old(caller.locals) + [result]
        && Prepared(old(vertex.value), vertex.value, d.value, typer, build, old(caller.NumRegisters()), result, splice)
        && |splice.payloads| == |splice.vertices|
        && (forall j :: 0 <= j < |splice.vertices| ==> splice.vertices[j].value == splice.payloads[j])
    {
      result, splice := Register(0, VoidType), Splice(vertex, [], [], [], [], vertex, vertex);
      var resolution := Resolve(vertex.value, typer);
      if resolution.None? {
        return None, result, splice;
      }
      ResolveExactly(vertex.value, typer);
      ghost var n := caller.NumRegisters();
      var bp := build(resolution.value.code);
      ghost var built, bound, insertPoint;
      var inlined;
      inlined, built, bound, insertPoint := Expand(caller, vertex, resolution.value, typer, bp);
      if inlined.Some? {
        target := Some(InlineTarget(vertex, inlined.value));
        result := Register(n, ResultType(resolution.value, typer));
        ghost var callee := inlined.value;
        SnapshotAssembled(vertex, callee, bp, resolution.value.call.params, n, built, bound, insertPoint);
        splice := Snapshot(vertex, callee, CalleePayloads(bp, resolution.value.call.params, n));
      } else {
        target := None;
      }
    }

    /**
     * For a call that passed the filter: build and renumber the callee, bind
     * the arguments, and for a non-void callee allocate the result register,
     * rewrite the returns and put the result register in place of the call.
     * `built` are the callee's own vertices, `bound` the argument vertices,
     * `insertPoint` the first vertex after its entry as built.
     */
    method Expand(caller: Method, vertex: Vertex, res: Resolution, typer: Typer, bp: Blueprint)
      returns (inlined: Option<Method>, ghost built: seq<Vertex>, ghost bound: seq<Vertex>, ghost insertPoint: Vertex)
      requires WellFormed(bp) && res.call.Call?
      modifies caller, vertex
      ensures inlined.None? <==> ResultType(res, typer) == VoidType
      ensures inlined.None? ==> unchanged(caller) && unchanged(vertex)
      ensures caller.vertices == old(caller.vertices) && caller.edges == old(caller.edges)
      ensures caller.entry == old(caller.entry) && caller.exit == old(caller.exit)
      ensures inlined.Some? ==>
        var n := old(caller.NumRegisters());
        var rt := ResultType(res, typer);
        && caller.locals == old(caller.locals) + [Register(n, rt)]
        && vertex.value == ReplaceBelow(old(vertex.value), res.call, Local(n, rt))
      ensures inlined.Some? ==>
        var n := old(caller.NumRegisters());
        var callee := inlined.value;
        && fresh(callee) && callee.Valid() && callee.Source().Some?
        && callee.locals == ShiftRegisters(bp.registers, n)
        && fresh(built) && fresh(bound)
        && Wired(callee, bp, built, bound, insertPoint)
        && (forall i :: 0 <= i < |callee.vertices| && callee.vertices[i].kind == Default ==>
              !callee.vertices[i].value.Return?)
      ensures inlined.Some? ==>
        var n := old(caller.NumRegisters());
        var callee := inlined.value;
        && |bound| == |res.call.params|
        && |callee.vertices| == |CalleePayloads(bp, res.call.params, n)|
        && (forall i :: 0 <= i < |callee.vertices| ==> callee.vertices[i].value == CalleePayloads(bp, res.call.params, n)[i])
    {
      var value := vertex.value;
      var call := res.call;
      // renumber the callee's registers by the caller's register count
      var offset := caller.NumRegisters();
      var callee;
      callee, built, bound, insertPoint := BuildCallee(bp, offset, call.params);
      var returnType := typer.toNativeType(res.target.returnType);
      if returnType == VoidType {
        // void callees are not inlined
        return None, built, bound, insertPoint;
      }
      LoadedPayloads(callee, bp, call.params, offset, built, bound);
      StoreResult(caller, vertex, call, returnType, callee, bp, built, bound, insertPoint);
      inlined := Some(callee);
    }

    /**
     * `manipulate`: scan every vertex, record at most one target per
     * vertex, then splice the targets in scan order. The result is the
     * `changed` flag, which is reset and never set. `payloads` are the
     * payloads of the vertices before the pass, `decisions` the outcomes of
     * the filter on them, `rewritten` their payloads after it, `scanned`
     * the positions of the targets.
     */
    method Manipulate(caller: Method, typer: Typer, build: Bytecode -> Blueprint)
      returns (r: bool, ghost payloads: seq<Value>, ghost decisions: seq<Option<Resolution>>,
               ghost rewritten: seq<Value>, ghost targets: seq<InlineTarget>, ghost scanned: seq<nat>,
               ghost results: seq<Register>, ghost splices: seq<Splice>, ghost callees: set<Method>)
      requires caller.Valid()
      requires forall code :: WellFormed(build(code))
      modifies this, caller, caller.vertices
      ensures !r && !changed
      ensures |payloads| == |decisions| == |rewritten| == |old(caller.vertices)|
      ensures forall j :: 0 <= j < |payloads| ==>
        && payloads[j] == old(caller.vertices[j].value)
        && decisions[j] == Resolve(payloads[j], typer)
        && old(caller.vertices)[j].value == rewritten[j]
      ensures ScanOutcome(payloads, decisions, rewritten, scanned, results, splices, typer, build,
                          old(caller.NumRegisters()), |payloads|)
      // target k: the vertex at position scanned[k] and a callee prepared for it
      ensures Sited(targets, old(caller.vertices), scanned, splices)
      // the splices, in order
      ensures caller.locals == SplicedLocals(old(caller.locals) + results, splices)
      ensures caller.vertices == SplicedVertices(old(caller.vertices), splices)
      ensures caller.edges == SplicedEdges(old(caller.edges), splices)
      ensures caller.entry == old(caller.entry) && caller.exit == old(caller.exit)
      // what was recorded of each target's callee is what the callee holds
      ensures Snapshots(targets, splices, callees) && Carries(splices)
      // no vertex is spliced twice, so the caller is again a well-formed graph
      ensures Apart(splices, old(caller.vertices)) && Separate(splices)
      ensures caller.Valid()
      // the callees and their vertices are new objects
      ensures forall k :: 0 <= k < |splices| ==> fresh(targets[k].callee) && fresh(splices[k].vertices)
    {
      changed := false;
      ghost var vertices0 := caller.vertices;
      var found;
      found, payloads, decisions, rewritten, scanned, results, splices, callees := Scan(caller, typer, build);
      targets := found;
      // inline all targets now
      SpliceAll(caller, found, splices, callees);
      SplicedKeepsGraph(vertices0, splices, caller.entry, caller.exit);
      r := changed;
    }

    /**
     * The scan loop of `manipulate`: the targets in vertex order, with their
     * positions, their result registers and what `inline` will read from
     * each. The graph itself is not touched yet.
     */
    method Scan(caller: Method, typer: Typer, build: Bytecode -> Blueprint)
      returns (found: seq<InlineTarget>, ghost payloads: seq<Value>, ghost decisions: seq<Option<Resolution>>,
               ghost rewritten: seq<Value>, ghost scanned: seq<nat>, ghost results: seq<Register>,
               ghost splices: seq<Splice>, ghost callees: set<Method>)
      requires caller.Valid()
      requires forall code :: WellFormed(build(code))
      modifies caller, caller.vertices
      ensures caller.vertices == old(caller.vertices) && caller.edges == old(caller.edges)
      ensures caller.entry == old(caller.entry) && caller.exit == old(caller.exit)
      ensures |payloads| == |decisions| == |caller.vertices|
      ensures forall j :: 0 <= j < |payloads| ==>
        && payloads[j] == old(caller.vertices[j].value)
        && decisions[j] == Resolve(payloads[j], typer)
      ensures ScanOutcome(payloads, decisions, rewritten, scanned, results, splices, typer, build,
                          old(caller.NumRegisters()), |payloads|)
      ensures forall j :: 0 <= j < |payloads| ==> caller.vertices[j].value == rewritten[j]
      ensures Sited(found, caller.vertices, scanned, splices)
      ensures Snapshots(found, splices, callees) && caller !in callees
      ensures caller.locals == old(caller.locals) + results
      ensures Carries(splices)
      ensures Apart(splices, caller.vertices) && Separate(splices)
      ensures forall k :: 0 <= k < |splices| ==> fresh(found[k].callee) && fresh(splices[k].vertices)
    {
      var vertices := caller.vertices;
      payloads := Payloads(vertices);
      PayloadsExactly(vertices);
      decisions := seq(|vertices|, j requires 0 <= j < |vertices| => Resolve(payloads[j], typer));
      ghost var locals0 := caller.locals;
      rewritten := payloads;
      callees := {};
      found, scanned, results, splices := [], [], [], [];
      ScanOutcomeStarts(payloads, decisions, typer, build, |locals0|);
      for i := 0 to |vertices|
        invariant caller.vertices == vertices && caller.edges == old(caller.edges)
        invariant caller.entry == old(caller.entry) && caller.exit == old(caller.exit)
        invariant Scanning(found, vertices, payloads, decisions, rewritten, scanned, results, splices, callees,
                           typer, build, |locals0|, i)
        invariant forall j :: 0 <= j < |vertices| ==> vertices[j].value == rewritten[j]
        invariant caller !in callees
        invariant caller.locals == locals0 + results
        invariant forall k :: 0 <= k < |splices| ==> fresh(found[k].callee) && fresh(splices[k].vertices)
      {
        found, rewritten, scanned, results, splices, callees :=
          ScanStep(caller, vertices, i, typer, build, payloads, decisions, locals0,
                   found, rewritten, scanned, results, splices, callees);
      }
      assert Scanned(found, vertices, payloads, decisions, rewritten, scanned, results, splices, callees,
                     typer, build, |locals0|, |vertices|);
    }

    /**
     * One turn of the scan loop: `PrepareCandidate` on vertex `i`, and a
     * new target if it yields one.
     */
    method ScanStep(caller: Method, vertices: seq<Vertex>, i: nat, typer: Typer, build: Bytecode -> Blueprint,
                    ghost payloads: seq<Value>, ghost decisions: seq<Option<Resolution>>, ghost locals0: seq<Register>,
                    found: seq<InlineTarget>, ghost rewritten: seq<Value>, ghost scanned: seq<nat>,
                    ghost results: seq<Register>, ghost splices: seq<Splice>, ghost callees: set<Method>)
      returns (found': seq<InlineTarget>, ghost rewritten': seq<Value>, ghost scanned': seq<nat>,
               ghost results': seq<Register>, ghost splices': seq<Splice>, ghost callees': set<Method>)
      requires forall code :: WellFormed(build(code))
      requires Distinct(vertices) && i < |vertices| == |payloads|
      requires Scanning(found, vertices, payloads, decisions, rewritten, scanned, results, splices, callees,
                        typer, build, |locals0|, i)
      requires decisions[i] == Resolve(payloads[i], typer)
      requires forall j :: 0 <= j < |vertices| ==> vertices[j].value == rewritten[j]
      requires caller !in callees
      requires caller.locals == locals0 + results
      modifies caller, vertices[i]
      ensures caller.vertices == old(caller.vertices) && caller.edges == old(caller.edges)
      ensures caller.entry == old(caller.entry) && caller.exit == old(caller.exit)
      ensures Scanning(found', vertices, payloads, decisions, rewritten', scanned', results', splices', callees',
                       typer, build, |locals0|, i + 1)
      ensures forall j :: 0 <= j < |vertices| ==> vertices[j].value == rewritten'[j]
      ensures caller !in callees'
      ensures caller.locals == locals0 + results'
      ensures |splices| <= |splices'| && splices'[..|splices|] == splices && found'[..|found|] == found
      ensures forall k :: |splices| <= k < |splices'| ==> fresh(found'[k].callee) && fresh(splices'[k].vertices)
    {
      var vertex := vertices[i];
      ghost var before, n := vertex.value, caller.NumRegisters();
      ScanningApart(found, vertices, payloads, decisions, rewritten, scanned, results, splices, callees,
                    typer, build, |locals0|, i);
      assert before == payloads[i] && n == |locals0| + |scanned|;
      ghost var result, splice;
      var prepared;
      prepared, result, splice := PrepareCandidate(caller, vertex, typer, build, decisions[i]);
      found', rewritten', scanned', results', splices', callees' := found, rewritten, scanned, results, splices, callees;
      if prepared.Some? {
        assert Scanning(found, vertices, payloads, decisions, rewritten, scanned, results, splices, callees,
                        typer, build, |locals0|, i);
        assert forall m :: 0 <= m < |splice.vertices| ==> splice.vertices[m] !in vertices;
        assert forall k, m, p :: 0 <= k < |splices| && 0 <= m < |splices[k].vertices| && 0 <= p < |splice.vertices| ==>
          splices[k].vertices[m] != splice.vertices[p];
        assert Prepared(before, vertex.value, decisions[i].value, typer, build, n, result, splice);
        ScannedGrows(found, vertices, payloads, decisions, rewritten, scanned, results, splices, callees,
                     typer, build, |locals0|, i, before, n, decisions[i].value, vertex.value, result,
                     prepared.value, splice);
        callees' := callees + {prepared.value.callee};
        rewritten' := rewritten[i := vertex.value];
        found' := found + [prepared.value];
        scanned' := scanned + [i];
        results' := results + [result];
        splices' := splices + [splice];
      } else {
        ScannedSkips(found, vertices, payloads, decisions, rewritten, scanned, results, splices, callees,
                     typer, build, |locals0|, i);
      }
    }

    /** The inlining loop of `manipulate`: `inline` for every target, in order. */
    method SpliceAll(caller: Method, found: seq<InlineTarget>, ghost splices: seq<Splice>, ghost callees: set<Method>)
      requires Snapshots(found, splices, callees) && caller !in callees
      modifies caller
      ensures caller.locals == SplicedLocals(old(caller.locals), splices)
      ensures caller.vertices == SplicedVertices(old(caller.vertices), splices)
      ensures caller.edges == SplicedEdges(old(caller.edges), splices)
      ensures caller.entry == old(caller.entry) && caller.exit == old(caller.exit)
    {
      for k := 0 to |found|
        invariant caller.vertices == SplicedVertices(old(caller.vertices), splices[..k])
        invariant caller.locals == SplicedLocals(old(caller.locals), splices[..k])
        invariant caller.edges == SplicedEdges(old(caller.edges), splices[..k])
        invariant caller.entry == old(caller.entry) && caller.exit == old(caller.exit)
      {
        assert splices[..k + 1][..k] == splices[..k];
        Inline(caller, found[k].vertex, found[k].callee);
      }
      assert splices[..|splices|] == splices;
    }
  }
}
