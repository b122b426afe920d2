/**
 * The value tree of the register-based IR (TAAS) as far as the inliner
 * sees it, and the three walks the inliner makes over it:
 *  - the search for the first call (`findCall`),
 *  - the substitution of one node by another (`TaasToolkit.replace`),
 *  - the renumbering of registers (`TaasLocals.offset`).
 *
 * The source walks the tree by reflection over the fields annotated
 * `@TaasReference`; here every variant lists those fields explicitly and
 * in declaration order (`Children`).
 */
module Ir {

  datatype Option<+T> = None | Some(value: T)

  /** Static type of a local or of a multiname. */
  datatype Ty =
    | MultinameType(name: string, runtimeName: Option<string>)
    | VoidType
    | OtherType(name: string)
    | Untyped

  /** A property name (`TaasMultiname`) with its static type. */
  datatype Multiname = Multiname(name: string, ty: Ty)

  /**
   * An IR value. `Absent` stands for a null reference. A `Call` carries
   * `id`, the identity of the call object: the source replaces a call by
   * object identity, and two calls with different ids are different
   * objects even when they look alike.
   */
  datatype Value =
    | Absent
    | Local(index: nat, ty: Ty)
    | Call(id: nat, obj: Value, property: Multiname, params: seq<Value>)
    | Phi(values: seq<Value>)
    | Return(value: Value)
    | SetLocal(reg: nat, value: Value)
    | Other(op: string, refs: seq<Value>)

  /** The reference fields of a value, flattened, in declaration order. */
  function Children(v: Value): seq<Value>
  {
    match v
    case Absent => []
    case Local(_, _) => []
    case Call(_, obj, _, params) => [obj] + params
    case Phi(values) => values
    case Return(x) => [x]
    case SetLocal(_, x) => [x]
    case Other(_, refs) => refs
  }

  // ---------------------------------------------------------------------
  // findCall
  // ---------------------------------------------------------------------

  /**
   * `findCall`: a call is returned as it is (its receiver and arguments are
   * not searched); a phi and every other variant are searched child by
   * child, and the first child that holds a call wins.
   */
  function FindCall(v: Value): Option<Value>
    decreases v
  {
    match v
    case Absent => None
    case Local(_, _) => None
    case Call(_, _, _, _) => Some(v)
    case Phi(values) => FindCallIn(values)
    case Return(x) => FindCall(x)
    case SetLocal(_, x) => FindCall(x)
    case Other(_, refs) => FindCallIn(refs)
  }

  /** The loop of `findCall` over the elements of a phi or of a reference array. */
  function FindCallIn(vs: seq<Value>): Option<Value>
    decreases vs
  {
    if vs == [] then None
    else if vs[0].Call? then Some(vs[0])
    else match FindCall(vs[0])
      case Some(c) => Some(c)
      case None => FindCallIn(vs[1..])
  }

  /**
   * Reference definition: every call reachable from `v` without passing
   * through another call, in depth-first, left-to-right order.
   */
  function Calls(v: Value): (r: seq<Value>)
    decreases v
    ensures forall i :: 0 <= i < |r| ==> r[i].Call? && Occurs(r[i], v)
  {
    match v
    case Absent => []
    case Local(_, _) => []
    case Call(_, _, _, _) => [v]
    case Phi(values) => CallsIn(values)
    case Return(x) => Calls(x)
    case SetLocal(_, x) => Calls(x)
    case Other(_, refs) => CallsIn(refs)
  }

  function CallsIn(vs: seq<Value>): (r: seq<Value>)
    decreases vs
    ensures forall i :: 0 <= i < |r| ==> r[i].Call? && OccursIn(r[i], vs)
  {
    if vs == [] then []
    else
      var head := Calls(vs[0]);
      var tail := CallsIn(vs[1..]);
      assert forall i :: 0 <= i < |tail| ==> OccursIn(tail[i], vs) by {
        forall i | 0 <= i < |tail| ensures OccursIn(tail[i], vs) {
          assert OccursIn(tail[i], vs[1..]);
        }
      }
      head + tail
  }

  function First(s: seq<Value>): Option<Value>
  {
    if s == [] then None else Some(s[0])
  }

  // ---------------------------------------------------------------------
  // occurrence
  // ---------------------------------------------------------------------

  /** `x` is `v` or is reachable from `v` through reference fields. */
  predicate Occurs(x: Value, v: Value)
    decreases v, 1
  {
    x == v || OccursBelow(x, v)
  }

  /** `x` is reachable from a reference field of `v`. */
  predicate OccursBelow(x: Value, v: Value)
    decreases v, 0
  {
    match v
    case Absent => false
    case Local(_, _) => false
    case Call(_, obj, _, params) => Occurs(x, obj) || OccursIn(x, params)
    case Phi(values) => OccursIn(x, values)
    case Return(y) => Occurs(x, y)
    case SetLocal(_, y) => Occurs(x, y)
    case Other(_, refs) => OccursIn(x, refs)
  }

  predicate OccursIn(x: Value, vs: seq<Value>)
    decreases vs
  {
    vs != [] && (Occurs(x, vs[0]) || OccursIn(x, vs[1..]))
  }

  // ---------------------------------------------------------------------
  // replace
  // ---------------------------------------------------------------------

  /** Every occurrence of `a` in `v`, `v` itself included, becomes `b`. */
  function Subst(v: Value, a: Value, b: Value): Value
    decreases v, 1
  {
    if v == a then b else ReplaceBelow(v, a, b)
  }

  /**
   * `TaasToolkit.replace(root, a, b)` with a value as the scope: every
   * occurrence of `a` reachable from the reference fields of `root` becomes
   * `b`. The root itself is passed by value and cannot be rebound.
   */
  function ReplaceBelow(root: Value, a: Value, b: Value): Value
    decreases root, 0
  {
    match root
    case Absent => root
    case Local(_, _) => root
    case Call(id, obj, property, params) => Call(id, Subst(obj, a, b), property, SubstIn(params, a, b))
    case Phi(values) => Phi(SubstIn(values, a, b))
    case Return(y) => Return(Subst(y, a, b))
    case SetLocal(reg, y) => SetLocal(reg, Subst(y, a, b))
    case Other(op, refs) => Other(op, SubstIn(refs, a, b))
  }

  function SubstIn(vs: seq<Value>, a: Value, b: Value): (r: seq<Value>)
    decreases vs
    ensures |r| == |vs|
  {
    if vs == [] then [] else [Subst(vs[0], a, b)] + SubstIn(vs[1..], a, b)
  }

  // ---------------------------------------------------------------------
  // register renumbering
  // ---------------------------------------------------------------------

  /** Adds `k` to every register a value reads or writes. */
  function Shift(v: Value, k: nat): Value
    decreases v
  {
    match v
    case Absent => v
    case Local(i, ty) => Local(i + k, ty)
    case Call(id, obj, property, params) => Call(id, Shift(obj, k), property, ShiftIn(params, k))
    case Phi(values) => Phi(ShiftIn(values, k))
    case Return(y) => Return(Shift(y, k))
    case SetLocal(reg, y) => SetLocal(reg + k, Shift(y, k))
    case Other(op, refs) => Other(op, ShiftIn(refs, k))
  }

  function ShiftIn(vs: seq<Value>, k: nat): (r: seq<Value>)
    decreases vs
    ensures |r| == |vs|
  {
    if vs == [] then [] else [Shift(vs[0], k)] + ShiftIn(vs[1..], k)
  }

  /** The registers a value reads or writes. */
  function Registers(v: Value): set<nat>
    decreases v
  {
    match v
    case Absent => {}
    case Local(i, _) => {i}
    case Call(_, obj, _, params) => Registers(obj) + RegistersIn(params)
    case Phi(values) => RegistersIn(values)
    case Return(y) => Registers(y)
    case SetLocal(reg, y) => {reg} + Registers(y)
    case Other(_, refs) => RegistersIn(refs)
  }

  function RegistersIn(vs: seq<Value>): set<nat>
    decreases vs
  {
    if vs == [] then {} else Registers(vs[0]) + RegistersIn(vs[1..])
  }

  function ShiftSet(s: set<nat>, k: nat): set<nat>
  {
    set r | r in s :: r + k
  }

  /** The number of nodes of a value tree. */
  function Size(v: Value): nat
    decreases v
  {
    match v
    case Absent => 1
    case Local(_, _) => 1
    case Call(_, obj, _, params) => 1 + Size(obj) + SizeIn(params)
    case Phi(values) => 1 + SizeIn(values)
    case Return(y) => 1 + Size(y)
    case SetLocal(_, y) => 1 + Size(y)
    case Other(_, refs) => 1 + SizeIn(refs)
  }

  function SizeIn(vs: seq<Value>): nat
    decreases vs
  {
    if vs == [] then 0 else Size(vs[0]) + SizeIn(vs[1..])
  }

  /** A call node carrying `id` is reachable from `v`. */
  predicate MentionsCall(v: Value, id: nat)
    decreases v
  {
    match v
    case Absent => false
    case Local(_, _) => false
    case Call(cid, obj, _, params) => cid == id || MentionsCall(obj, id) || MentionsCallIn(params, id)
    case Phi(values) => MentionsCallIn(values, id)
    case Return(y) => MentionsCall(y, id)
    case SetLocal(_, y) => MentionsCall(y, id)
    case Other(_, refs) => MentionsCallIn(refs, id)
  }

  predicate MentionsCallIn(vs: seq<Value>, id: nat)
    decreases vs
  {
    vs != [] && (MentionsCall(vs[0], id) || MentionsCallIn(vs[1..], id))
  }

  /**
   * Every call node of `v` that carries the id of the call `a` is `a`
   * itself: ids behave as object identities.
   */
  predicate UniqueCall(v: Value, a: Value)
    decreases v
  {
    match v
    case Absent => true
    case Local(_, _) => true
    case Call(id, obj, _, params) =>
      (a.Call? && id == a.id ==> v == a) && UniqueCall(obj, a) && UniqueCallIn(params, a)
    case Phi(values) => UniqueCallIn(values, a)
    case Return(y) => UniqueCall(y, a)
    case SetLocal(_, y) => UniqueCall(y, a)
    case Other(_, refs) => UniqueCallIn(refs, a)
  }

  predicate UniqueCallIn(vs: seq<Value>, a: Value)
    decreases vs
  {
    vs == [] || (UniqueCall(vs[0], a) && UniqueCallIn(vs[1..], a))
  }

  // ---------------------------------------------------------------------
  // lemmas: findCall
  // ---------------------------------------------------------------------

  /**
   * `findCall` returns the first call of the depth-first, left-to-right
   * order, and nothing exactly when no call is reachable.
   */
  lemma {:induction false} FindCallIsFirst(v: Value)
    decreases v
    ensures FindCall(v) == First(Calls(v))
    ensures FindCall(v).None? <==> Calls(v) == []
    ensures FindCall(v).Some? ==> FindCall(v).value.Call? && Occurs(FindCall(v).value, v)
  {
    match v
    case Absent =>
    case Local(_, _) =>
    case Call(_, _, _, _) =>
    case Phi(values) => FindCallInIsFirst(values);
    case Return(x) => FindCallIsFirst(x);
    case SetLocal(_, x) => FindCallIsFirst(x);
    case Other(_, refs) => FindCallInIsFirst(refs);
  }

  lemma {:induction false} FindCallInIsFirst(vs: seq<Value>)
    decreases vs
    ensures FindCallIn(vs) == First(CallsIn(vs))
  {
    if vs != [] {
      FindCallIsFirst(vs[0]);
      if !vs[0].Call? && FindCall(vs[0]).None? {
        FindCallInIsFirst(vs[1..]);
      }
    }
  }

  /**
   * Completeness of `findCall`: whenever some call occurs anywhere in `v`,
   * the search returns one (not necessarily that one, since a call is not
   * searched inside).
   */
  lemma {:induction false} FindCallFindsAnyCall(c: Value, v: Value)
    requires c.Call? && Occurs(c, v)
    ensures FindCall(v).Some?
  {
    CallsNonEmpty(c, v);
    FindCallIsFirst(v);
  }

  lemma {:induction false} CallsNonEmpty(c: Value, v: Value)
    requires c.Call? && Occurs(c, v)
    decreases v, 1
    ensures Calls(v) != []
  {
    if c != v {
      CallsBelowNonEmpty(c, v);
    }
  }

  lemma {:induction false} CallsBelowNonEmpty(c: Value, v: Value)
    requires c.Call? && OccursBelow(c, v)
    decreases v, 0
    ensures Calls(v) != []
  {
    match v
    case Call(_, _, _, _) =>
    case Phi(values) => CallsInNonEmpty(c, values);
    case Return(x) => CallsNonEmpty(c, x);
    case SetLocal(_, x) => CallsNonEmpty(c, x);
    case Other(_, refs) => CallsInNonEmpty(c, refs);
  }

  lemma {:induction false} CallsInNonEmpty(c: Value, vs: seq<Value>)
    requires c.Call? && OccursIn(c, vs)
    decreases vs
    ensures CallsIn(vs) != []
  {
    if Occurs(c, vs[0]) {
      CallsNonEmpty(c, vs[0]);
    } else {
      CallsInNonEmpty(c, vs[1..]);
    }
  }

  /**
   * The search follows the explicit reference list: apart from a call,
   * which is its own answer, every value is searched through `Children`.
   */
  lemma FindCallWalksChildren(v: Value)
    ensures v.Call? ==> FindCall(v) == Some(v)
    ensures !v.Call? ==> FindCall(v) == FindCallIn(Children(v))
  {
    match v
    case Return(x) =>
      assert [x][1..] == [];
    case SetLocal(_, x) =>
      assert [x][1..] == [];
    case _ =>
  }

  // ---------------------------------------------------------------------
  // lemmas: replace
  // ---------------------------------------------------------------------

  /** Nothing changes where `a` does not occur. */
  lemma {:induction false} SubstIdle(v: Value, a: Value, b: Value)
    requires !Occurs(a, v)
    decreases v, 1
    ensures Subst(v, a, b) == v
  {
    ReplaceBelowIdle(v, a, b);
  }

  lemma {:induction false} ReplaceBelowIdle(root: Value, a: Value, b: Value)
    requires !OccursBelow(a, root)
    decreases root, 0
    ensures ReplaceBelow(root, a, b) == root
  {
    match root
    case Absent =>
    case Local(_, _) =>
    case Call(_, obj, _, params) =>
      SubstIdle(obj, a, b);
      SubstInIdle(params, a, b);
    case Phi(values) => SubstInIdle(values, a, b);
    case Return(y) => SubstIdle(y, a, b);
    case SetLocal(_, y) => SubstIdle(y, a, b);
    case Other(_, refs) => SubstInIdle(refs, a, b);
  }

  lemma {:induction false} SubstInIdle(vs: seq<Value>, a: Value, b: Value)
    requires !OccursIn(a, vs)
    decreases vs
    ensures SubstIn(vs, a, b) == vs
  {
    if vs != [] {
      SubstIdle(vs[0], a, b);
      SubstInIdle(vs[1..], a, b);
    }
  }

  lemma {:induction false} OccursSize(x: Value, v: Value)
    requires Occurs(x, v)
    decreases v
    ensures Size(x) <= Size(v)
  {
    if x != v {
      match v
      case Call(_, obj, _, params) =>
        if Occurs(x, obj) { OccursSize(x, obj); } else { OccursInSize(x, params); }
      case Phi(values) => OccursInSize(x, values);
      case Return(y) => OccursSize(x, y);
      case SetLocal(_, y) => OccursSize(x, y);
      case Other(_, refs) => OccursInSize(x, refs);
    }
  }

  lemma {:induction false} OccursInSize(x: Value, vs: seq<Value>)
    requires OccursIn(x, vs)
    decreases vs
    ensures Size(x) <= SizeIn(vs)
  {
    if Occurs(x, vs[0]) { OccursSize(x, vs[0]); } else { OccursInSize(x, vs[1..]); }
  }

  /**
   * When the value handed to `replace` is the call itself, nothing is
   * replaced: the call is not below itself, and the root cannot be rebound.
   */
  lemma CallAtRootSurvives(c: Value, b: Value)
    requires c.Call?
    ensures ReplaceBelow(c, c, b) == c
  {
    if OccursBelow(c, c) {
      if Occurs(c, c.obj) {
        OccursSize(c, c.obj);
      } else {
        OccursInSize(c, c.params);
      }
      assert false;
    }
    ReplaceBelowIdle(c, c, b);
  }

  /**
   * A call that occurs below the root is replaced: the replacement then
   * occurs below the root.
   */
  lemma {:induction false} ReplaceBelowLands(root: Value, a: Value, b: Value)
    requires OccursBelow(a, root)
    decreases root, 0
    ensures OccursBelow(b, ReplaceBelow(root, a, b))
  {
    match root
    case Call(_, obj, _, params) =>
      if Occurs(a, obj) { SubstLands(obj, a, b); } else { SubstInLands(params, a, b); }
    case Phi(values) => SubstInLands(values, a, b);
    case Return(y) => SubstLands(y, a, b);
    case SetLocal(_, y) => SubstLands(y, a, b);
    case Other(_, refs) => SubstInLands(refs, a, b);
  }

  lemma {:induction false} SubstLands(v: Value, a: Value, b: Value)
    requires Occurs(a, v)
    decreases v, 1
    ensures Occurs(b, Subst(v, a, b))
  {
    if v != a { ReplaceBelowLands(v, a, b); }
  }

  lemma {:induction false} SubstInLands(vs: seq<Value>, a: Value, b: Value)
    requires OccursIn(a, vs)
    decreases vs
    ensures OccursIn(b, SubstIn(vs, a, b))
  {
    var r := SubstIn(vs, a, b);
    assert r[0] == Subst(vs[0], a, b) && r[1..] == SubstIn(vs[1..], a, b);
    if Occurs(a, vs[0]) { SubstLands(vs[0], a, b); } else { SubstInLands(vs[1..], a, b); }
  }

  /**
   * After the replacement no call carrying the id of `a` is left below the
   * root, provided ids are object identities in the root and the
   * replacement holds no such call.
   */
  lemma {:induction false} ReplaceBelowRemoves(root: Value, a: Value, b: Value)
    requires a.Call? && UniqueCall(root, a) && !MentionsCall(b, a.id)
    requires root != a
    decreases root, 0
    ensures !MentionsCall(ReplaceBelow(root, a, b), a.id)
  {
    match root
    case Absent =>
    case Local(_, _) =>
    case Call(_, obj, _, params) =>
      SubstRemoves(obj, a, b);
      SubstInRemoves(params, a, b);
    case Phi(values) => SubstInRemoves(values, a, b);
    case Return(y) => SubstRemoves(y, a, b);
    case SetLocal(_, y) => SubstRemoves(y, a, b);
    case Other(_, refs) => SubstInRemoves(refs, a, b);
  }

  lemma {:induction false} SubstRemoves(v: Value, a: Value, b: Value)
    requires a.Call? && UniqueCall(v, a) && !MentionsCall(b, a.id)
    decreases v, 1
    ensures !MentionsCall(Subst(v, a, b), a.id)
  {
    if v != a { ReplaceBelowRemoves(v, a, b); }
  }

  lemma {:induction false} SubstInRemoves(vs: seq<Value>, a: Value, b: Value)
    requires a.Call? && UniqueCallIn(vs, a) && !MentionsCall(b, a.id)
    decreases vs
    ensures !MentionsCallIn(SubstIn(vs, a, b), a.id)
  {
    if vs != [] {
      var r := SubstIn(vs, a, b);
      assert r[0] == Subst(vs[0], a, b) && r[1..] == SubstIn(vs[1..], a, b);
      SubstRemoves(vs[0], a, b);
      SubstInRemoves(vs[1..], a, b);
    }
  }

  // ---------------------------------------------------------------------
  // lemmas: renumbering
  // ---------------------------------------------------------------------

  /** Renumbering moves every register a value mentions by exactly `k`. */
  lemma {:induction false} ShiftMovesRegisters(v: Value, k: nat)
    decreases v
    ensures Registers(Shift(v, k)) == ShiftSet(Registers(v), k)
  {
    match v
    case Absent =>
    case Local(i, _) =>
    case Call(_, obj, _, params) =>
      ShiftMovesRegisters(obj, k);
      ShiftInMovesRegisters(params, k);
      ShiftSetUnion(Registers(obj), RegistersIn(params), k);
    case Phi(values) => ShiftInMovesRegisters(values, k);
    case Return(y) => ShiftMovesRegisters(y, k);
    case SetLocal(reg, y) =>
      ShiftMovesRegisters(y, k);
      ShiftSetUnion({reg}, Registers(y), k);
    case Other(_, refs) => ShiftInMovesRegisters(refs, k);
  }

  lemma {:induction false} ShiftInMovesRegisters(vs: seq<Value>, k: nat)
    decreases vs
    ensures RegistersIn(ShiftIn(vs, k)) == ShiftSet(RegistersIn(vs), k)
  {
    if vs != [] {
      var r := ShiftIn(vs, k);
      assert r[0] == Shift(vs[0], k) && r[1..] == ShiftIn(vs[1..], k);
      ShiftMovesRegisters(vs[0], k);
      ShiftInMovesRegisters(vs[1..], k);
      ShiftSetUnion(Registers(vs[0]), RegistersIn(vs[1..]), k);
    }
  }

  lemma ShiftSetUnion(s: set<nat>, t: set<nat>, k: nat)
    ensures ShiftSet(s + t, k) == ShiftSet(s, k) + ShiftSet(t, k)
  {
  }
}
