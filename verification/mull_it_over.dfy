/**
  Mull It Over (2024 day 3): corrupted memory holds `mul(l,r)`
  instructions among noise, switched off by `don't()` and back on by
  `do()`. The memory is modelled as the sequence of regex matches, in
  order.
*/
module MullItOver {
  import opened Wrappers
  import Text

  /** One match of `mul\((\d+),(\d+)\)|do\(\)|don't\(\)`; a `Mul` carries its two digit runs. */
  datatype Token = Mul(left: string, right: string) | Do | Dont

  /** `MulOp`: the operands and whether multiplication was enabled where it stood. */
  datatype MulOp = MulOp(enabled: bool, left: int, right: int)

  function ParseOperand(s: string): Option<int>
  {
    Text.ParseSigned(s, Text.I32)
  }

  /** The flag in force just before token `i`: set by the last `do()` or `don't()` before it, on at the start. */
  function EnabledAt(ts: seq<Token>, i: nat): bool
    requires i <= |ts|
  {
    if i == 0 then true
    else match ts[i - 1]
      case Do => true
      case Dont => false
      case Mul(_, _) => EnabledAt(ts, i - 1)
  }

  /** Both operands of every `mul` parse as `i32`s. */
  predicate Parses(ts: seq<Token>)
  {
    forall i :: 0 <= i < |ts| && ts[i].Mul? ==> ParseOperand(ts[i].left).Some? && ParseOperand(ts[i].right).Some?
  }

  /**
    The `filter_map` over the matches from the front, with `enabled` the
    flag so far: each `mul` becomes a `MulOp`, a switch only sets the
    flag. An operand that does not fit an `i32` panics at the `expect`.
  */
  function Ops(ts: seq<Token>, enabled: bool): (r: Outcome<seq<MulOp>>)
    ensures r.Done? <==> Parses(ts)
    ensures r.Done? ==> |r.value| <= |ts|
  {
    if |ts| == 0 then Done([])
    else
      assert forall i :: 1 <= i < |ts| ==> ts[1..][i - 1] == ts[i];
      match ts[0]
      case Do => Ops(ts[1..], true)
      case Dont => Ops(ts[1..], false)
      case Mul(l, r) =>
        var left, right, rest := ParseOperand(l), ParseOperand(r), Ops(ts[1..], enabled);
        if left.None? || right.None? || rest.Panic? then Panic
        else Done([MulOp(enabled, left.value, right.value)] + rest.value)
  }

  /** `Memory::from_str`: the flag starts on. */
  function Memory(ts: seq<Token>): (r: Outcome<seq<MulOp>>)
    ensures r.Done? <==> Parses(ts)
  {
    Ops(ts, true)
  }

  /** The operations of the first `n` tokens: one per `mul`, in order, tagged with the flag in force there. */
  function Expected(ts: seq<Token>, n: nat): seq<MulOp>
    requires n <= |ts| && Parses(ts)
  {
    if n == 0 then []
    else
      var t := ts[n - 1];
      Expected(ts, n - 1)
        + if t.Mul? then [MulOp(EnabledAt(ts, n - 1), ParseOperand(t.left).value, ParseOperand(t.right).value)] else []
  }

  /** The operation token `k` contributes, if it is a `mul`. */
  function OpAt(ts: seq<Token>, k: nat): seq<MulOp>
    requires k < |ts| && Parses(ts)
  {
    if ts[k].Mul? then [MulOp(EnabledAt(ts, k), ParseOperand(ts[k].left).value, ParseOperand(ts[k].right).value)] else []
  }

  lemma ParsesSuffix(ts: seq<Token>, k: nat)
    requires k <= |ts| && Parses(ts)
    ensures Parses(ts[k..])
  {
    forall i | 0 <= i < |ts| - k ensures ts[k..][i] == ts[k + i] { }
  }

  /** One step of the scan from token `k`: its operation, then the scan from `k + 1` with the flag it leaves. */
  lemma OpsStep(ts: seq<Token>, k: nat)
    requires k < |ts| && Parses(ts)
    ensures Ops(ts[k..], EnabledAt(ts, k)).Done? && Ops(ts[k + 1..], EnabledAt(ts, k + 1)).Done?
    ensures Ops(ts[k..], EnabledAt(ts, k)).value == OpAt(ts, k) + Ops(ts[k + 1..], EnabledAt(ts, k + 1)).value
  {
    ParsesSuffix(ts, k);
    ParsesSuffix(ts, k + 1);
    assert ts[k..][1..] == ts[k + 1..] && ts[k..][0] == ts[k];
  }

  /** The scan from token `k` on, started with the flag in force there, completes the expected operations. */
  lemma {:induction false} OpsFrom(ts: seq<Token>, k: nat)
    requires k <= |ts| && Parses(ts)
    ensures Ops(ts[k..], EnabledAt(ts, k)).Done?
    ensures Expected(ts, |ts|) == Expected(ts, k) + Ops(ts[k..], EnabledAt(ts, k)).value
    decreases |ts| - k
  {
    if k < |ts| {
      OpsFrom(ts, k + 1);
      OpsFromStep(ts, k);
    } else {
      assert ts[k..] == [];
    }
  }

  /** If the scan from `k + 1` completes the expected operations, so does the scan from `k`. */
  lemma OpsFromStep(ts: seq<Token>, k: nat)
    requires k < |ts| && Parses(ts)
    requires Ops(ts[k + 1..], EnabledAt(ts, k + 1)).Done?
    requires Expected(ts, |ts|) == Expected(ts, k + 1) + Ops(ts[k + 1..], EnabledAt(ts, k + 1)).value
    ensures Ops(ts[k..], EnabledAt(ts, k)).Done?
    ensures Expected(ts, |ts|) == Expected(ts, k) + Ops(ts[k..], EnabledAt(ts, k)).value
  {
    var before, here := Expected(ts, k), OpAt(ts, k);
    assert Expected(ts, k + 1) == before + here;
    OpsStep(ts, k);
    Regroup(before, here, Ops(ts[k + 1..], EnabledAt(ts, k + 1)).value);
  }

  lemma Regroup<T>(a: seq<T>, b: seq<T>, c: seq<T>)
    ensures (a + b) + c == a + (b + c)
  {
  }

  /** Each `mul` yields one operation, in order, tagged with the flag set by the last switch before it. */
  lemma MemoryExpected(ts: seq<Token>)
    requires Parses(ts)
    ensures Memory(ts) == Done(Expected(ts, |ts|))
  {
    OpsFrom(ts, 0);
    assert ts[0..] == ts;
    assert EnabledAt(ts, 0) && Expected(ts, 0) == [];
    var r := Ops(ts, true);
    assert r.Done? && r == Done(r.value);
    assert Expected(ts, |ts|) == [] + r.value == r.value;
  }

  /** Without `don't()` every operation is enabled. */
  lemma {:induction false} NoDontAllEnabled(ts: seq<Token>)
    requires Parses(ts) && forall i :: 0 <= i < |ts| ==> ts[i] != Dont
    ensures forall k :: 0 <= k < |Ops(ts, true).value| ==> Ops(ts, true).value[k].enabled
  {
    if |ts| > 0 {
      assert forall i :: 1 <= i < |ts| ==> ts[1..][i - 1] == ts[i];
      NoDontAllEnabled(ts[1..]);
    }
  }

  // ---------------------------------------------------------------------
  // Sums

  /** The products of all operations. */
  function SumAll(ops: seq<MulOp>): int
  {
    if |ops| == 0 then 0 else ops[0].left * ops[0].right + SumAll(ops[1..])
  }

  /** The products of the enabled operations. */
  function SumEnabled(ops: seq<MulOp>): int
  {
    if |ops| == 0 then 0
    else (if ops[0].enabled then ops[0].left * ops[0].right else 0) + SumEnabled(ops[1..])
  }

  /** Every operand is at least 0. */
  predicate NonNegative(ops: seq<MulOp>)
  {
    forall k :: 0 <= k < |ops| ==> ops[k].left >= 0 && ops[k].right >= 0
  }

  /** Leaving out disabled products of non-negative operands can only lower the sum. */
  lemma {:induction false} EnabledAtMostAll(ops: seq<MulOp>)
    requires NonNegative(ops)
    ensures SumEnabled(ops) <= SumAll(ops)
  {
    if |ops| > 0 {
      EnabledAtMostAll(ops[1..]);
      assert ops[0].left * ops[0].right >= 0;
    }
  }

  /** With every operation enabled the two sums agree. */
  lemma {:induction false} AllEnabledSame(ops: seq<MulOp>)
    requires forall k :: 0 <= k < |ops| ==> ops[k].enabled
    ensures SumEnabled(ops) == SumAll(ops)
  {
    if |ops| > 0 {
      AllEnabledSame(ops[1..]);
    }
  }

  /** A `\d+` run never starts with a sign, so every `mul` operand parses to a non-negative value. */
  predicate Unsigned(ts: seq<Token>)
  {
    forall i :: 0 <= i < |ts| && ts[i].Mul? ==> NoSign(ts[i].left) && NoSign(ts[i].right)
  }

  predicate NoSign(s: string)
  {
    |s| == 0 || (s[0] != '-' && s[0] != '+')
  }

  lemma {:induction false} UnsignedOps(ts: seq<Token>, enabled: bool)
    requires Parses(ts) && Unsigned(ts)
    ensures NonNegative(Ops(ts, enabled).value)
  {
    if |ts| > 0 {
      assert forall i :: 1 <= i < |ts| ==> ts[1..][i - 1] == ts[i];
      UnsignedOps(ts[1..], ts[0] == Do || (ts[0] != Dont && enabled));
    }
  }

  // ---------------------------------------------------------------------
  // The puzzle

  /** `part_one`: every product, enabled or not. */
  function PartOne(ts: seq<Token>): (r: Outcome<int>)
    ensures r.Done? <==> Parses(ts)
    ensures r.Done? ==> r.value == SumAll(Expected(ts, |ts|))
  {
    var ops := Memory(ts);
    if ops.Panic? then Panic
    else
      MemoryExpected(ts);
      Done(SumAll(ops.value))
  }

  /** `part_two`: only the enabled products. */
  function PartTwo(ts: seq<Token>): (r: Outcome<int>)
    ensures r.Done? <==> Parses(ts)
    ensures r.Done? ==> r.value == SumEnabled(Expected(ts, |ts|))
  {
    var ops := Memory(ts);
    if ops.Panic? then Panic
    else
      MemoryExpected(ts);
      Done(SumEnabled(ops.value))
  }

  /** Part two never exceeds part one, and equals it when memory holds no `don't()`. */
  lemma PartsCompared(ts: seq<Token>)
    requires Parses(ts) && Unsigned(ts)
    ensures PartTwo(ts).value <= PartOne(ts).value
    ensures (forall i :: 0 <= i < |ts| ==> ts[i] != Dont) ==> PartTwo(ts).value == PartOne(ts).value
  {
    UnsignedOps(ts, true);
    EnabledAtMostAll(Memory(ts).value);
    if forall i :: 0 <= i < |ts| ==> ts[i] != Dont {
      NoDontAllEnabled(ts);
      AllEnabledSame(Memory(ts).value);
    }
  }
}
