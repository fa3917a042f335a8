/** The intermediate representation shared by every stage of the toolchain (src/lib.rs). */
module Ir {
  import opened Wrappers

  /** The six instructions. `MovePointer`/`Add` carry a signed payload that may grow past
      one after fusion; the two jumps carry an instruction index. */
  datatype Instruction =
    | MovePointer(offset: int)
    | Add(delta: int)
    | Input
    | Output
    | JumpIfZero(target: nat)
    | JumpIfNonZero(target: nat)
  {
    predicate IsJump() {
      JumpIfZero? || JumpIfNonZero?
    }

    /** The two kinds the fusion pass can merge. */
    predicate Fusable() {
      MovePointer? || Add?
    }
  }

  /** `a` followed by `b` is merged by the fusion pass: both move the pointer, or both add. */
  predicate SameRun(a: Instruction, b: Instruction) {
    (a.MovePointer? && b.MovePointer?) || (a.Add? && b.Add?)
  }

  /** Same kind at every position, whatever the payloads. */
  predicate SameShape(v: seq<Instruction>, w: seq<Instruction>) {
    |v| == |w| &&
    forall k :: 0 <= k < |v| ==>
      && (v[k].JumpIfZero? <==> w[k].JumpIfZero?)
      && (v[k].JumpIfNonZero? <==> w[k].JumpIfNonZero?)
      && (!v[k].IsJump() ==> v[k] == w[k])
  }

  /** Effect of one instruction on the number of open loops; `None` when a close has no open. */
  function DepthStep(d: nat, i: Instruction): Option<nat> {
    match i
    case JumpIfZero(_) => Some(d + 1)
    case JumpIfNonZero(_) => if d == 0 then None else Some(d - 1)
    case _ => Some(d)
  }

  /** Number of `JumpIfZero` left open after `v`, or `None` if some prefix of `v`
      has more `JumpIfNonZero` than `JumpIfZero`. */
  function Depth(v: seq<Instruction>): Option<nat> {
    if |v| == 0 then Some(0)
    else match Depth(v[..|v| - 1])
      case None => None
      case Some(d) => DepthStep(d, v[|v| - 1])
  }

  /** Signed count of opening minus closing jumps. */
  function JumpBalance(v: seq<Instruction>): int {
    if |v| == 0 then 0
    else
      var last := v[|v| - 1];
      JumpBalance(v[..|v| - 1]) + (if last.JumpIfZero? then 1 else if last.JumpIfNonZero? then -1 else 0)
  }

  /** Depth is the prefix-checked jump balance: it fails exactly when some prefix
      closes more loops than it opened, and otherwise counts the loops left open. */
  lemma {:induction false} DepthIsCheckedBalance(v: seq<Instruction>)
    ensures Depth(v).None? <==> exists k :: 0 <= k <= |v| && JumpBalance(v[..k]) < 0
    ensures Depth(v).Some? ==> Depth(v).value == JumpBalance(v)
  {
    if |v| == 0 {
      assert v[..0] == v;
    } else {
      var p := v[..|v| - 1];
      DepthIsCheckedBalance(p);
      assert forall k :: 0 <= k <= |p| ==> v[..k] == p[..k];
      assert v[..|v|] == v;
      if Depth(p).None? {
        var k :| 0 <= k <= |p| && JumpBalance(p[..k]) < 0;
        assert JumpBalance(v[..k]) < 0;
      } else if Depth(v).None? {
        assert JumpBalance(v[..|v|]) < 0;
      } else {
        forall k | 0 <= k <= |v|
          ensures JumpBalance(v[..k]) >= 0
        {
          if k <= |p| {
            assert v[..k] == p[..k];
          }
        }
      }
    }
  }

  /** Once a prefix has an unmatched close, the whole sequence has one. */
  lemma {:induction false} DepthNoneExtends(v: seq<Instruction>, k: nat)
    requires k <= |v|
    requires Depth(v[..k]).None?
    ensures Depth(v).None?
    decreases |v| - k
  {
    if k < |v| {
      var q := v[..k + 1];
      assert q[..|q| - 1] == v[..k];
      DepthNoneExtends(v, k + 1);
    } else {
      assert v[..k] == v;
    }
  }

  /** The `JumpIfZero` at `p` is resolved: it targets a later `JumpIfNonZero` that targets it back. */
  predicate Opens(r: seq<Instruction>, p: int) {
    && 0 <= p < |r|
    && r[p].JumpIfZero?
    && p < r[p].target < |r|
    && r[r[p].target] == JumpIfNonZero(p)
  }

  /** The `JumpIfNonZero` at `q` is resolved: it targets an earlier `JumpIfZero` that targets it back. */
  predicate Closes(r: seq<Instruction>, q: int) {
    && 0 <= q < |r|
    && r[q].JumpIfNonZero?
    && r[q].target < q
    && r[r[q].target] == JumpIfZero(q)
  }

  /** Jump pairs are symmetric and nest like brackets: every `JumpIfNonZero` is resolved,
      and every `JumpIfZero` strictly inside a resolved pair is itself resolved, with its
      partner inside the same pair. */
  predicate WellMatched(r: seq<Instruction>) {
    && (forall q :: 0 <= q < |r| && r[q].JumpIfNonZero? ==> Closes(r, q))
    && (forall p, q :: 0 <= p < q < |r| && Opens(r, p) && q < r[p].target && r[q].JumpIfZero? ==>
          Opens(r, q) && r[q].target < r[p].target)
  }
}
