# Inline expansion of the Apparat TAAS optimiser, in Dafny

Apparat's TAAS is a register-based IR. Its code is arranged as a
control-flow graph with one Entry vertex, one Exit vertex and Default
vertices carrying payloads. `InlineExpansion` is a pass over one method that
inlines statically resolvable calls made on the scope object. The model
covers the whole class:

- **`findCall`**: a depth-first search of a payload for its first
  `TCallProperty`. It looks through phi elements and reference fields and
  never descends into a call.
- **The scan of `manipulate`**, vertex by vertex:
  - It filters the first call. The receiver must be register 0 with a
    statically named multiname type, the property must be statically named,
    and the typer must find a method with code.
  - It builds the callee and renumbers its registers by the caller's current
    register count.
  - It inserts one set-local vertex per argument in front of the callee's
    first vertex.
  - For a non-void callee it creates a result register in the caller,
    rewrites the callee's returns into assignments to it, and puts the
    register in place of the call.
- **`inline`**, run for every recorded target after the scan:
  - It imports the callee's registers except the scope register.
  - It copies the callee's Default vertices and the edges between them.
  - It redirects the caller's edges into the call site to the callee's first
    vertex.
  - It adds one edge to the call site from every predecessor of the callee's
    exit.

Files:

- `ir.dfy` (module `Ir`):
  - the value tree, with an explicit `Children` list in place of reflection
    over `@TaasReference` fields;
  - `FindCall`, with `Calls` as its reference definition;
  - `ReplaceBelow`, the call replacement;
  - `Shift`, the register renumbering.
- `locals.dfy` (module `Locals`): register tables, `locals.offset`, and what
  the pass does to register uniqueness with one target and with two.
- `cfg.dfy` (module `Cfg`):
  - the graph: `Vertex` objects with a mutable payload, edges as
    (start, end) values, and `Method`, which joins `TaasCode` and
    `TaasLocals`;
  - the graph queries and list rewrites the pass uses;
  - the builder's output as a `Blueprint`;
  - the collaborators that are not part of this model: the builder,
    `insertBefore`, `createRegister` and `offset`.
- `inline.dfy` (module `Inlining`):
  - the filter (`Resolve`);
  - callee preparation (`BuildCallee`, `BindParameters`, `RewriteReturns`,
    `Expand`);
  - the class `InlineExpansion` with `Inline`, `Manipulate` and its two
    loops, `Scan` and `SpliceAll`.

The scan is specified on values. `payloads` and `decisions` are the vertex
payloads before the pass and the filter's outcome on each. `rewritten` holds
the payloads after the pass. `ScanOutcome` relates the three:

- the targets sit exactly at the selected positions, in vertex order;
- target `k` owns result register `n + k`, where `n` is the caller's
  register count before the pass;
- every other payload is left as it was.

The splicing phase is specified by `SplicedLocals`, `SplicedVertices` and
`SplicedEdges`. Each folds one application of `inline` per target, in scan
order.

## Model

| member | source | states |
|---|---|---|
| `Ir.FindCallIsFirst` | java/Apparat.Core/src/com/joa_ebert/apparat/taas/toolkit/inlineExpansion/InlineExpansion.java:73-168 | `findCall` returns the first call of the depth-first, left-to-right order, where a call is not searched inside; it returns nothing exactly when no call is reachable; a result is a call that occurs in the value |
| `Ir.FindCallFindsAnyCall` | java/Apparat.Core/src/com/joa_ebert/apparat/taas/toolkit/inlineExpansion/InlineExpansion.java:73-168 | `findCall` is complete: whenever a call occurs anywhere in the value, at any depth, it returns a call |
| `Ir.FindCallWalksChildren` | java/Apparat.Core/src/com/joa_ebert/apparat/taas/toolkit/inlineExpansion/InlineExpansion.java:80-167 | a call is its own answer; any other value is searched through its reference fields in order, and the first child holding a call wins |
| `Ir.CallAtRootSurvives` | java/Apparat.Core/src/com/joa_ebert/apparat/taas/toolkit/inlineExpansion/InlineExpansion.java:456 | when the payload is the call itself, `replace(value, call, result)` cannot rebind it and leaves it in place |
| `Ir.ReplaceBelowLands` | java/Apparat.Core/src/com/joa_ebert/apparat/taas/toolkit/inlineExpansion/InlineExpansion.java:456 | a call that occurs below the payload's root is replaced: the result register then occurs there |
| `Ir.ReplaceBelowRemoves` | java/Apparat.Core/src/com/joa_ebert/apparat/taas/toolkit/inlineExpansion/InlineExpansion.java:456 | after the replacement no node with the call's identity is left below the root |
| `Ir.ReplaceBelowIdle` | java/Apparat.Core/src/com/joa_ebert/apparat/taas/toolkit/inlineExpansion/InlineExpansion.java:456 | a payload in which the call does not occur is unchanged |
| `Ir.ShiftMovesRegisters` | java/Apparat.Core/src/com/joa_ebert/apparat/taas/toolkit/inlineExpansion/InlineExpansion.java:339-340 | renumbering by the offset moves every register a payload reads or writes by exactly the offset |
| `Locals.ShiftRegistersAt` | java/Apparat.Core/src/com/joa_ebert/apparat/taas/toolkit/inlineExpansion/InlineExpansion.java:339-340 | after `offset(k)` register `i` of the callee keeps its type and its index grows by exactly `k` |
| `Locals.SingleTargetKeepsRegistersDense` | java/Apparat.Core/src/com/joa_ebert/apparat/taas/toolkit/inlineExpansion/InlineExpansion.java:336-340 | with one target the caller's table stays dense and free of clashes: result register at the old count, imported callee registers right after it |
| `Locals.TwoTargetsClash` | java/Apparat.Core/src/com/joa_ebert/apparat/taas/toolkit/inlineExpansion/InlineExpansion.java:403-404 | with two targets in one pass the second result register and the first callee's register 1 get the same index, so the "no clash" comment holds only for one target |
| `Cfg.Method.Offset` | java/Apparat.Core/src/com/joa_ebert/apparat/taas/toolkit/inlineExpansion/InlineExpansion.java:339-340 | `locals.offset(k)` shifts the register table and, since registers are shared with the code, every payload of the method; the graph is otherwise unchanged |
| `Cfg.SuccessorExactly` | java/Apparat.Core/src/com/joa_ebert/apparat/taas/toolkit/inlineExpansion/InlineExpansion.java:224-225 | `outgoingOf(v).get(0).endVertex` exists exactly when an edge leaves `v`, and it is the end of such an edge |
| `Cfg.RedirectPointwise` | java/Apparat.Core/src/com/joa_ebert/apparat/taas/toolkit/inlineExpansion/InlineExpansion.java:221-230 | after the redirection every edge that ended at the call site ends at the callee's first vertex, and every other edge is as it was |
| `Cfg.RedirectClears` | java/Apparat.Core/src/com/joa_ebert/apparat/taas/toolkit/inlineExpansion/InlineExpansion.java:227-230 | after the redirection no edge ends at the call site any more |
| `Cfg.DefaultVerticesExactly` | java/Apparat.Core/src/com/joa_ebert/apparat/taas/toolkit/inlineExpansion/InlineExpansion.java:197-205 | the vertices copied from a callee are exactly its Default vertices |
| `Cfg.DefaultEdgesExactly` | java/Apparat.Core/src/com/joa_ebert/apparat/taas/toolkit/inlineExpansion/InlineExpansion.java:207-214 | the edges copied from a callee are exactly those whose two ends are Default vertices |
| `Cfg.ExitEdgesFollowIncoming` | java/Apparat.Core/src/com/joa_ebert/apparat/taas/toolkit/inlineExpansion/InlineExpansion.java:232-238 | one new edge per callee edge into its exit, in order, from that edge's start to the call site |
| `Cfg.ChainGrows` | java/Apparat.Core/src/com/joa_ebert/apparat/taas/toolkit/inlineExpansion/InlineExpansion.java:379-389 | one more `insertBefore(point, v)` extends the chain of argument vertices by `v`, which falls through to `point` |
| `Cfg.ChainTakesOver` | java/Apparat.Core/src/com/joa_ebert/apparat/taas/toolkit/inlineExpansion/InlineExpansion.java:353-390 | once a non-empty argument chain is inserted before the entry's successor, the chain's first vertex is the entry's successor |
| `Inlining.ResolveExactly` | java/Apparat.Core/src/com/joa_ebert/apparat/taas/toolkit/inlineExpansion/InlineExpansion.java:258-329 | a vertex passes the filter exactly when its first call is made on register 0, both multinames are typed with no runtime name, and the typer finds a method with code; the resolution then names that call, method and code |
| `Inlining.RuntimeNamesAreSkipped` | java/Apparat.Core/src/com/joa_ebert/apparat/taas/toolkit/inlineExpansion/InlineExpansion.java:298-307 | a call whose receiver or property name has a runtime part is never inlined, whatever the typer says |
| `Inlining.BindParameters` | java/Apparat.Core/src/com/joa_ebert/apparat/taas/toolkit/inlineExpansion/InlineExpansion.java:370-390 | one fresh set-local vertex per argument, in argument order; argument `i` is assigned to register `offset + 1 + i`; they form the chain inserted before the insertion point; registers, entry and exit unchanged |
| `Inlining.BuildCallee` | java/Apparat.Core/src/com/joa_ebert/apparat/taas/toolkit/inlineExpansion/InlineExpansion.java:331-390 | the callee as built with every register shifted by the offset, plus the argument chain; its first real vertex is the chain's head, or the built insertion point if there are no arguments |
| `Inlining.RewriteReturns` | java/Apparat.Core/src/com/joa_ebert/apparat/taas/toolkit/inlineExpansion/InlineExpansion.java:418-449 | every Default vertex whose payload is directly a return now assigns the returned value to the result register; every other payload is unchanged; no Default vertex is left returning |
| `Inlining.ContributedRegisters` | java/Apparat.Core/src/com/joa_ebert/apparat/taas/toolkit/inlineExpansion/InlineExpansion.java:177-188 | the callee's registers except register 0, in order |
| `Inlining.CopyDefaultVertices` | java/Apparat.Core/src/com/joa_ebert/apparat/taas/toolkit/inlineExpansion/InlineExpansion.java:197-205 | the callee's Default vertices, in order |
| `Inlining.CopyDefaultEdges` | java/Apparat.Core/src/com/joa_ebert/apparat/taas/toolkit/inlineExpansion/InlineExpansion.java:207-214 | the callee's edges between two Default vertices, in order |
| `Inlining.RedirectInto` | java/Apparat.Core/src/com/joa_ebert/apparat/taas/toolkit/inlineExpansion/InlineExpansion.java:221-230 | every edge into the call site now enters the callee's first vertex |
| `Inlining.FallThrough` | java/Apparat.Core/src/com/joa_ebert/apparat/taas/toolkit/inlineExpansion/InlineExpansion.java:232-238 | one edge to the call site from the start of each callee edge into its exit |
| `Inlining.SplicedVerticesKeepKinds` | java/Apparat.Core/src/com/joa_ebert/apparat/taas/toolkit/inlineExpansion/InlineExpansion.java:197-205 | however many callees are spliced, the caller's numbers of Entry and of Exit vertices are unchanged |
| `Inlining.SplicedVerticesExtend` | java/Apparat.Core/src/com/joa_ebert/apparat/taas/toolkit/inlineExpansion/InlineExpansion.java:477-480 | splicing only appends vertices: the caller's vertices, call sites included, stay in place |
| `Inlining.SplicedVerticesDistinct` | java/Apparat.Core/src/com/joa_ebert/apparat/taas/toolkit/inlineExpansion/InlineExpansion.java:197-205 | splicing keeps the caller's vertex list free of repetitions when each callee's list is, no callee vertex is the caller's and no two callees share a vertex |
| `Inlining.SplicedKeepsGraph` | java/Apparat.Core/src/com/joa_ebert/apparat/taas/toolkit/inlineExpansion/InlineExpansion.java:477-480 | under the same conditions, after all the splices the caller's vertices are distinct and its entry and exit are still among them |
| `Inlining.SpliceEdgesRedirect` | java/Apparat.Core/src/com/joa_ebert/apparat/taas/toolkit/inlineExpansion/InlineExpansion.java:221-230 | after one splice an edge of the caller into the call site enters the callee's first vertex, and any other caller edge is unchanged |
| `Inlining.PicksExactly` | java/Apparat.Core/src/com/joa_ebert/apparat/taas/toolkit/inlineExpansion/InlineExpansion.java:255-466 | the positions recorded by the scan are exactly the selected ones, each once, in increasing order |
| `Inlining.ScanOutcomeMeans` | java/Apparat.Core/src/com/joa_ebert/apparat/taas/toolkit/inlineExpansion/InlineExpansion.java:255-471 | after the scan a vertex is a target exactly when it is selected, at most once, in vertex order; target `k` owns result register `n + k`; a vertex that is not a target keeps its payload |
| `Inlining.NothingSelectedNothingChanges` | java/Apparat.Core/src/com/joa_ebert/apparat/taas/toolkit/inlineExpansion/InlineExpansion.java:264-395 | when no vertex passes the filter with a non-void callee, there are no targets, no result registers and no rewritten payloads |
| `Inlining.InlineExpansion.Inline` | java/Apparat.Core/src/com/joa_ebert/apparat/taas/toolkit/inlineExpansion/InlineExpansion.java:170-244 | the caller gains the callee's registers but the first, its Default vertices and the edges between them; edges into the call site are redirected to the callee's first vertex; predecessors of the callee's exit fall through to the call site; entry and exit unchanged; a callee with distinct vertices, none of them the caller's, leaves a well-formed caller well formed |
| `Inlining.InlineExpansion.Expand` | java/Apparat.Core/src/com/joa_ebert/apparat/taas/toolkit/inlineExpansion/InlineExpansion.java:331-466 | a void callee changes nothing; otherwise the caller gains result register `n = numRegisters()` typed with the return type and the call is replaced by it; the fresh callee has the blueprint's registers shifted by `n`, the built vertices followed by the argument vertices wired as the blueprint says, and payloads `CalleePayloads`: each built payload shifted by `n` with a Default return turned into an assignment to register `n`, then argument `j` assigned to register `n + 1 + j`; no Default vertex is left returning |
| `Inlining.StoreResult` | java/Apparat.Core/src/com/joa_ebert/apparat/taas/toolkit/inlineExpansion/InlineExpansion.java:396-456 | the non-void branch: the caller's new register is `numRegisters()` with the return type, the loaded callee's payloads become `CalleePayloads`, the vertex's payload has the register in place of the call, and the caller's graph is untouched |
| `Inlining.LoadedPayloads` | java/Apparat.Core/src/com/joa_ebert/apparat/taas/toolkit/inlineExpansion/InlineExpansion.java:331-390 | before return rewriting, the callee's vertices carry the built payloads shifted by the offset, then one set-local per argument |
| `Inlining.SnapshotAssembled` | java/Apparat.Core/src/com/joa_ebert/apparat/taas/toolkit/inlineExpansion/InlineExpansion.java:331-466 | what a prepared callee holds, registers, vertices with their kinds and payloads, edges, first vertex and exit, is `Assembled` from its blueprint, its arguments and its result register |
| `Inlining.InlineExpansion.PrepareCandidate` | java/Apparat.Core/src/com/joa_ebert/apparat/taas/toolkit/inlineExpansion/InlineExpansion.java:257-466 | a vertex yields a target exactly when it passes the filter and the callee is not void; a skipped vertex leaves the caller and the vertex untouched; a target carries the vertex and a fresh callee, the caller gains the result register, and the recorded splice is exactly what the callee holds, `Assembled` from the blueprint with that register, with every callee vertex carrying its recorded payload |
| `Inlining.InlineExpansion.ScanStep` | java/Apparat.Core/src/com/joa_ebert/apparat/taas/toolkit/inlineExpansion/InlineExpansion.java:257-470 | one turn of the scan keeps `Scanned`: the scan outcome with the vertex's payload rewritten and a target recorded exactly when it is selected, each target sited at its vertex, each splice equal to what its callee holds and assembled from its blueprint, and no callee vertex among the caller's |
| `Inlining.ScannedGrows` | java/Apparat.Core/src/com/joa_ebert/apparat/taas/toolkit/inlineExpansion/InlineExpansion.java:403-465 | recording a prepared target extends every part of the scan state: outcome, sites, snapshots of the callees, their payloads, and their separation from the caller's vertices |
| `Inlining.InlineExpansion.Scan` | java/Apparat.Core/src/com/joa_ebert/apparat/taas/toolkit/inlineExpansion/InlineExpansion.java:255-471 | the scan records the selected vertices in order, rewrites their payloads, appends one result register per target and leaves the graph's vertex list and edges untouched; each recorded splice is what its target's callee holds, the callee's vertices carry the recorded payloads, and each splice is assembled from the callee's blueprint with that target's result register; no callee vertex is one of the caller's, no two callees share a vertex, and the callees and their vertices are new objects |
| `Inlining.InlineExpansion.SpliceAll` | java/Apparat.Core/src/com/joa_ebert/apparat/taas/toolkit/inlineExpansion/InlineExpansion.java:477-480 | `inline` is applied to every target in scan order: the caller ends as the fold of the splices over its registers, vertices and edges |
| `Inlining.InlineExpansion.Manipulate` | java/Apparat.Core/src/com/joa_ebert/apparat/taas/toolkit/inlineExpansion/InlineExpansion.java:246-483 | the pass returns false and leaves `changed` false; it records at most one target per vertex, exactly at the selected vertices, and splices them after the scan in scan order; each target's recorded splice is what its callee holds, assembled from its blueprint with its result register, and the callee's vertices carry the recorded payloads; the callees and their vertices are new objects, none of them is one of the caller's or shared by two callees, and so the caller is again a well-formed graph: its vertices distinct, its entry and exit among them |
| `Inlining.ResultConnects` | java/Apparat.Core/src/com/joa_ebert/apparat/taas/toolkit/inlineExpansion/InlineExpansion.java:403-456 | the register put in place of the call is the one every Default return of the callee now assigns, with the return's value renumbered |
| `Inlining.ScopeReadsResult` | java/Apparat.Core/src/com/joa_ebert/apparat/taas/toolkit/inlineExpansion/InlineExpansion.java:339-340 | a callee payload that uses the scope register 0 uses the caller's result register once prepared, since both have index `numRegisters()` |

## Left out

- The IR builder, `TaasBuilder.build`, is not part of this model. It is the
  parameter `build`, a function from a method body's bytecode to a
  `Blueprint`, and `Cfg.Method.Build` allocates fresh vertices for it. Every
  blueprint is required to be well formed: the entry has a successor and
  the entry and exit are in place. With no edge out of the entry,
  `outgoingOf(...).get(0)` (lines 357-358) throws an index error that the
  catch at lines 360-363 does not wrap, and that exception aborts the pass.
  This case is not modelled.
- The typer, `method.typer`, is a pair of total functions (`findProperty`,
  `toNativeType`). The program-wide symbol lookup behind them is not part of
  this model.
- `TaasToolkit.insertBefore`, `TaasToolkit.replace` and
  `TaasToolkit.createRegister` are not part of this model. They have
  assumed contracts:
  - `Cfg.Method.InsertBefore`: the vertex is appended, every edge into the
    point is redirected to it, and an edge from it to the point is added.
  - `Ir.ReplaceBelow`: occurrences of the call below the payload's root are
    substituted, by call identity. A root that is the call itself cannot be
    rebound.
  - `Cfg.Method.CreateRegister`: the new register takes index
    `numRegisters()` and is appended.
  - `TaasLocals.get` (lines 386-388): the register fetched with
    `get(offset + localIndex)` is taken to be the one with that index, so
    argument `j` is modelled as assigned to register index
    `offset + 1 + j`.
  - `TaasLocals.numRegisters()`: taken to be the length of the register
    table (`Cfg.Method.NumRegisters` is `|locals|`). The renumbering offset
    and the index of a new register both rest on this.
- The entry and exit sentinels carry a payload like any other vertex, and
  `Cfg.Method.Valid` places no constraint on it. The scan visits every
  vertex, so a sentinel whose payload held a call would be a candidate in
  the model. How the source's graph builds its sentinels is not part of
  this model.
- Return rewriting (lines 418-449) goes through `replace` on the callee
  with a map of replacements. It is modelled directly on the vertices
  whose payload is a return. A return object shared by several vertices, or
  reachable inside another payload, is not distinguished.
- `Ir.ReplaceBelow` and `Inlining.InlineExpansion.Expand` work on value
  trees. `TaasToolkit.replace` (line 456) rebinds fields of payload
  objects in place. A sub-expression object shared by several payloads, or
  by another vertex, would see the replacement in all of them, and the
  model does not capture that sharing.
- Edges are bare (start, end) pairs. The source's `TaasEdge` objects also
  carry a kind, which survives the copy and the in-place redirect; the
  fall-through edges are built with `new TaasEdge(start, insertionVertex)`
  (lines 236-237). Edge kinds are not modelled.
- Under the assumed contract of `replace`, a vertex whose payload is the
  call itself is unchanged by the replacement (`Ir.CallAtRootSurvives`).
  It still passes the filter and becomes a target, so the callee is
  spliced in front of it and the call stays at the site.
- Reflection over `@TaasReference` fields is replaced by the explicit
  ordered list `Ir.Children`. The `TaasException` wrapping of reflective
  access errors (lines 159-162) cannot arise and is left out.
- A phi element's vertex is left out. Only the element values are searched.
- `printStackTrace` on a swallowed `ControlFlowGraphException` in `inline`
  (lines 240-243) is logging only. `Inline` requires that the callee's entry
  has a successor, and every callee prepared by the scan has one.
- `Inlining.InlineExpansion.Inline` does not capture an in-place update
  seen through aliases. The source overwrites `edge.endVertex` on shared
  edge objects (line 229); the model replaces the edge values in the
  caller's edge list, so an alias of an edge object held elsewhere is not
  updated.
- `Locals.ShiftRegisters` / `Cfg.Method.Offset` model `offset` by renaming.
  Registers are shared `TaasLocal` objects in the source, so renumbering them
  renames every use in the code too. The model shifts the table and every
  payload instead. Register indices are unbounded naturals; the source's
  `int` cannot overflow for any realistic register count.
- The result register is created with index equal to the offset, so it
  shares its index with the callee's shifted scope register 0. That
  register is not imported into the caller's table, but the callee's code
  still uses it. Every use of the scope object in the inlined code becomes
  a use of the result register (`Inlining.ScopeReadsResult`), although the
  comment at line 336 says the shift avoids clashes. The model keeps this
  as written. With several targets in one pass the table indices clash too
  (`Locals.TwoTargetsClash`), and no uniqueness is claimed then.
- The void-return branch is an empty TODO in the source (lines 392-395). A
  void callee is built and renumbered, then dropped; nothing in the caller
  changes.
- An empty callee whose entry leads straight to its exit, called with no
  arguments, yields a fall-through edge starting at the callee's entry.
  Its first vertex is then its exit, so the caller's edges into the call
  site are redirected to that exit. Neither vertex is copied. The model
  reproduces both as written and claims nothing about the ends of these
  edges being in the caller. With arguments the argument vertices take
  over the entry's edge: the callee is entered at the first argument
  vertex and falls through from the last one, both of them copied.
- The `AbcEnvironment` argument and the static `Taas` factory carry no
  behaviour here and are left out.
