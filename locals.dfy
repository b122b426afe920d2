/**
 * The register table of a method (`TaasLocals`): an ordered list of
 * registers, each with an index and a static type. Index 0 holds the scope
 * object of the method.
 */
module Locals {
  import opened Ir

  datatype Register = Register(index: nat, ty: Ty)

  /** `locals.offset(k)`: every register index grows by `k`, order and types kept. */
  function ShiftRegisters(rs: seq<Register>, k: nat): (r: seq<Register>)
    ensures |r| == |rs|
  {
    if rs == [] then []
    else ShiftRegisters(rs[..|rs| - 1], k) + [Register(rs[|rs| - 1].index + k, rs[|rs| - 1].ty)]
  }

  /** Register `i` keeps its type and its index grows by `k`. */
  lemma {:induction false} ShiftRegistersAt(rs: seq<Register>, k: nat, i: nat)
    requires i < |rs|
    ensures ShiftRegisters(rs, k)[i] == Register(rs[i].index + k, rs[i].ty)
  {
    if i < |rs| - 1 {
      ShiftRegistersAt(rs[..|rs| - 1], k, i);
    }
  }

  /** The registers a callee contributes to its caller: all but the scope register. */
  function Imported(rs: seq<Register>): seq<Register>
  {
    if rs == [] then [] else rs[1..]
  }

  /** No two registers of the table share an index. */
  predicate Unique(rs: seq<Register>)
  {
    forall i, j :: 0 <= i < j < |rs| ==> rs[i].index != rs[j].index
  }

  /** The register at position `i` has index `i`, as in a freshly built table. */
  predicate Dense(rs: seq<Register>)
  {
    forall i :: 0 <= i < |rs| ==> rs[i].index == i
  }

  /** A dense table has no clash. */
  lemma DenseIsUnique(rs: seq<Register>)
    requires Dense(rs)
    ensures Unique(rs)
  {
  }

  /**
   * With a single inline target, the caller's table stays dense and hence
   * free of clashes: the fresh result register takes index `|caller|`, the
   * offset the callee was shifted by, and the callee's registers other than
   * its scope register land on `|caller| + 1 ..`.
   */
  lemma SingleTargetKeepsRegistersDense(caller: seq<Register>, callee: seq<Register>, ty: Ty)
    requires Dense(caller) && Dense(callee)
    ensures Dense(caller + [Register(|caller|, ty)] + Imported(ShiftRegisters(callee, |caller|)))
    ensures Unique(caller + [Register(|caller|, ty)] + Imported(ShiftRegisters(callee, |caller|)))
  {
    var n := |caller|;
    var shifted := ShiftRegisters(callee, n);
    var all := caller + [Register(n, ty)] + Imported(shifted);
    forall i | 0 <= i < |all| ensures all[i].index == i {
      if i > n {
        assert all[i] == shifted[i - n];
        ShiftRegistersAt(callee, n, i - n);
      }
    }
    DenseIsUnique(all);
  }

  /**
   * With two inline targets in one pass the tables clash: the second result
   * register is created at index `|caller| + 1` during the scan, and the
   * first callee's register 1, shifted by `|caller|`, is appended with the
   * same index at splice time.
   */
  lemma TwoTargetsClash(caller: seq<Register>, callee1: seq<Register>, callee2: seq<Register>, ty1: Ty, ty2: Ty)
    requires Dense(caller) && Dense(callee1) && |callee1| >= 2
    ensures var n := |caller|;
      !Unique(caller + [Register(n, ty1), Register(n + 1, ty2)]
              + Imported(ShiftRegisters(callee1, n)) + Imported(ShiftRegisters(callee2, n + 1)))
  {
    var n := |caller|;
    var all := caller + [Register(n, ty1), Register(n + 1, ty2)]
               + Imported(ShiftRegisters(callee1, n)) + Imported(ShiftRegisters(callee2, n + 1));
    assert all[n + 1].index == n + 1;
    assert all[n + 2] == ShiftRegisters(callee1, n)[1];
    ShiftRegistersAt(callee1, n, 1);
  }
}
