/** The process-wide expression pool (`getExpressionPool()`) with its
    handles, and `interpret()` run against it. */
module JsPool {
  import opened Text
  import opened JsExpr

  class ExpressionPool {
    /** `_exprs`: slot id holds the expression every PtrExpression with
        `_id == id` reaches through `operator->`. */
    var exprs: seq<Expr>
    /** The slot of `Nothing::getNothing()`'s static handle, once created. */
    var nothing: Option<Slot>

    /** Operands come before their users, and the shared `Nothing` slot
        holds `Nothing` or, once something was assigned to it, a string. */
    predicate Valid()
      reads this
    {
      WellFormed(exprs) && (nothing.Some? ==> nothing.value < |exprs| && Leaf(exprs[nothing.value]))
    }

    constructor ()
      ensures Valid() && exprs == [] && nothing == None
    {
      exprs := [];
      nothing := None;
    }

    /** `push`, reached through the PtrExpression constructor: appends a
        slot and returns its index; every earlier slot is unchanged. */
    method Push(e: Expr) returns (id: Slot)
      requires Valid() && RefsBelow(e, |exprs|)
      modifies this
      ensures Valid()
      ensures exprs == old(exprs) + [e] && id == |old(exprs)| && nothing == old(nothing)
    {
      exprs := exprs + [e];
      id := |exprs| - 1;
    }

    /** `PtrExpression::reset`: rebinds slot id in place, so every handle
        with that id sees e from now on; no other slot changes. */
    method Reset(id: Slot, e: Expr)
      requires id < |exprs|
      modifies this
      ensures exprs == old(exprs)[id := e] && nothing == old(nothing)
    {
      exprs := exprs[id := e];
    }

    /** `Nothing::getNothing()`: the first call pushes a `Nothing`, every
        later call returns that same slot, whatever it holds by then. */
    method GetNothing() returns (id: Slot)
      requires Valid()
      modifies this
      ensures Valid()
      ensures nothing == Some(id)
      ensures old(nothing).Some? ==> id == old(nothing).value && exprs == old(exprs)
      ensures old(nothing).None? ==> exprs == old(exprs) + [Nothing] && id == |old(exprs)|
    {
      if nothing.None? {
        var n := Push(Nothing);
        nothing := Some(n);
      }
      id := nothing.value;
    }

    /** `interpret()` of the expression in slot id. */
    method Interpret(id: Slot) returns (s: string)
      requires WellFormed(exprs) && id < |exprs| && Eval(exprs, id).Defined?
      modifies this
      decreases id, 1
      ensures (s, exprs) == Eval(old(exprs), id).value
      ensures nothing == old(nothing)
    {
      match exprs[id]
      case Str(text) =>
        s := text;
      case Reverse(a) =>
        var v := Interpret(a);
        s := Reversed(v);
      case Splice(a, start, deleteCnt, items) =>
        var v := Interpret(a);
        var st := Min(start, |v|);
        Reset(id, Splice(a, st, deleteCnt, items));
        var str := Erased(v, st, deleteCnt);
        var k := 0;
        while k < |items|
          invariant 0 <= k <= |items| && st <= |str|
          invariant InsertedAt(str, st, items[k..]) == InsertedAt(Erased(v, st, deleteCnt), st, items)
        {
          assert items[k..][1..] == items[k + 1..];
          str := str[..st] + [items[k][0]] + str[st..];
          k := k + 1;
        }
        s := str;
      case Indexed(e, i) =>
        var text := Interpret(e);
        var idxText := Interpret(i);
        var idx := StrToULL(idxText);
        s := if idx < |text| then [text[idx]] else ['\0'];
      case Modulo(l, r) =>
        var lhs := Interpret(l);
        var rhs := Interpret(r);
        s := Decimal(StrToULL(lhs) % StrToULL(rhs));
      case Length(e) =>
        var text := Interpret(e);
        s := Decimal(|text|);
      case Assign(src, tgt) =>
        var v := Interpret(src);
        Reset(tgt, Str(v));
        s := [];
      case AssignIndexed(_, _, _) =>
        assert false;
      case Nothing =>
        s := [];
      case Routine(_, _, _, stack) =>
        s := InterpretStack(id, stack);
    }

    /** `Function::interpret`: the loop over the statements, returning the
        value of the last one. */
    method InterpretStack(owner: nat, stack: seq<Slot>) returns (s: string)
      requires WellFormed(exprs) && owner <= |exprs|
      requires forall k :: 0 <= k < |stack| ==> stack[k] < owner
      requires EvalStack(exprs, owner, stack, 0).Defined?
      modifies this
      decreases owner, 0
      ensures (s, exprs) == EvalStack(old(exprs), owner, stack, 0).value
      ensures nothing == old(nothing)
    {
      var i := 0;
      while true
        invariant 0 <= i < |stack|
        invariant WellFormed(exprs) && |exprs| == |old(exprs)| && nothing == old(nothing)
        invariant EvalStack(exprs, owner, stack, i) == EvalStack(old(exprs), owner, stack, 0)
        decreases |stack| - i
      {
        s := Interpret(stack[i]);
        if i == |stack| - 1 {
          return;
        }
        i := i + 1;
      }
    }
  }
}
