/** The expressions of the signature interpreter and what evaluating them
    does. Every expression lives in a slot of the process-wide expression
    pool, and an operand is the index of the slot that holds it, so the
    whole program state is the sequence of slots. Evaluation returns a
    string and may rewrite slots: `Assign` rebinds its target slot to a
    fresh `Str`, and `Splice` stores its clamped start.

    Undefined behaviour of the C++ (reading past the end of a string,
    `%` by zero, a function that flows off its end, `front()` of an empty
    string) makes the whole evaluation `Undefined`. */
module JsExpr {
  import opened Text

  datatype Outcome<T> = Defined(value: T) | Undefined

  /** An index into the expression pool (the `_id` of a PtrExpression). */
  type Slot = nat

  datatype Expr =
    | Str(text: string)
    | Reverse(arg: Slot)
      /** `start` and `deleteCnt` were computed when the statement was
          parsed; `items` are the raw texts of the further arguments. */
    | Splice(arg: Slot, start: nat, deleteCnt: nat, items: seq<string>)
    | Indexed(expr: Slot, idx: Slot)
    | Modulo(lhs: Slot, rhs: Slot)
    | Length(expr: Slot)
    | Assign(source: Slot, target: Slot)
    | AssignIndexed(source: Slot, target: Slot, idx: Slot)
    | Nothing
      /** A `Function` that is itself an expression: its statements, in order. */
    | Routine(name: string, vars: string, code: string, stack: seq<Slot>)

  /** Every operand of e is a slot below k. */
  predicate RefsBelow(e: Expr, k: nat)
  {
    match e
    case Str(_) => true
    case Reverse(a) => a < k
    case Splice(a, _, _, _) => a < k
    case Indexed(a, b) => a < k && b < k
    case Modulo(a, b) => a < k && b < k
    case Length(a) => a < k
    case Assign(a, b) => a < k && b < k
    case AssignIndexed(a, b, c) => a < k && b < k && c < k
    case Nothing => true
    case Routine(_, _, _, stack) => forall i :: 0 <= i < |stack| ==> stack[i] < k
  }

  /** Operands are always parsed before the expression that uses them, so
      every slot refers only to earlier slots. */
  predicate WellFormed(exprs: seq<Expr>)
  {
    forall k :: 0 <= k < |exprs| ==> RefsBelow(exprs[k], k)
  }

  /** What evaluating slot id may do to the pool: same size, still well
      formed, and every later slot untouched. */
  predicate Preserves(before: seq<Expr>, after: seq<Expr>, id: Slot)
  {
    && |after| == |before|
    && WellFormed(after)
    && forall k :: id < k < |before| ==> after[k] == before[k]
  }

  /** An expression without operands: a string or `Nothing`. */
  predicate Leaf(e: Expr)
  {
    e.Str? || e.Nothing?
  }

  /** The slots from lo on, the slots in named and the shared `Nothing`. */
  predicate InRegion(j: Slot, lo: nat, named: set<Slot>, nothing: Option<Slot>)
  {
    lo <= j || j in named || nothing == Some(j)
  }

  /** Every operand of e lies in the region. */
  predicate RefsIn(e: Expr, lo: nat, named: set<Slot>, nothing: Option<Slot>)
  {
    match e
    case Str(_) => true
    case Reverse(a) => InRegion(a, lo, named, nothing)
    case Splice(a, _, _, _) => InRegion(a, lo, named, nothing)
    case Indexed(a, b) => InRegion(a, lo, named, nothing) && InRegion(b, lo, named, nothing)
    case Modulo(a, b) => InRegion(a, lo, named, nothing) && InRegion(b, lo, named, nothing)
    case Length(a) => InRegion(a, lo, named, nothing)
    case Assign(a, b) => InRegion(a, lo, named, nothing) && InRegion(b, lo, named, nothing)
    case AssignIndexed(a, b, c) =>
      InRegion(a, lo, named, nothing) && InRegion(b, lo, named, nothing) && InRegion(c, lo, named, nothing)
    case Nothing => true
    case Routine(_, _, _, stack) => forall i :: 0 <= i < |stack| ==> InRegion(stack[i], lo, named, nothing)
  }

  /** No slot of the region refers to a slot outside it. */
  predicate Closed(exprs: seq<Expr>, lo: nat, named: set<Slot>, nothing: Option<Slot>)
  {
    forall j :: 0 <= j < |exprs| && InRegion(j, lo, named, nothing) ==> RefsIn(exprs[j], lo, named, nothing)
  }

  function Min(a: nat, b: nat): nat
  {
    if a <= b then a else b
  }

  // ---------------------------------------------------------------------
  // The value of each expression kind
  // ---------------------------------------------------------------------

  /** `str.erase(start, deleteCnt)`: removes the characters from start on,
      at most deleteCnt of them. */
  function Erased(s: string, start: nat, deleteCnt: nat): (r: string)
    requires start <= |s|
  {
    s[..start] + s[start + Min(deleteCnt, |s| - start)..]
  }

  predicate AllNonEmpty(items: seq<string>)
  {
    forall k :: 0 <= k < |items| ==> items[k] != []
  }

  /** The loop of `Splice::interpret`: the first character of every item is
      inserted at the same position, one item after the other. */
  function InsertedAt(s: string, start: nat, items: seq<string>): (r: string)
    requires start <= |s| && AllNonEmpty(items)
    decreases |items|
    ensures |r| == |s| + |items|
  {
    if items == [] then s
    else InsertedAt(s[..start] + [items[0][0]] + s[start..], start, items[1..])
  }

  /** The first characters of the items, in argument order. */
  function Firsts(items: seq<string>): (r: string)
    requires AllNonEmpty(items)
    ensures |r| == |items|
    ensures forall k :: 0 <= k < |items| ==> r[k] == items[k][0]
  {
    seq(|items|, k requires 0 <= k < |items| => items[k][0])
  }

  /** The value of `Splice` once the operand evaluated to s: start clamped
      to the length, then erase, then the insertions. */
  function SpliceValue(s: string, start: nat, deleteCnt: nat, items: seq<string>): string
    requires AllNonEmpty(items)
  {
    var st := Min(start, |s|);
    InsertedAt(Erased(s, st, deleteCnt), st, items)
  }

  /** `Indexed`: the index text is read with strtoull; `str[idx]` of a
      const string is its terminating NUL at idx == size and undefined
      beyond. */
  function IndexedValue(s: string, idxText: string): Outcome<string>
  {
    var idx := StrToULL(idxText);
    if idx < |s| then Defined([s[idx]])
    else if idx == |s| then Defined(['\0'])
    else Undefined
  }

  /** `Modulo`: both sides read with strtoull, remainder printed with
      std::to_string; a zero divisor is undefined. */
  function ModuloValue(lhs: string, rhs: string): Outcome<string>
  {
    var b := StrToULL(rhs);
    if b == 0 then Undefined else Defined(Decimal(StrToULL(lhs) % b))
  }

  // ---------------------------------------------------------------------
  // Evaluation
  // ---------------------------------------------------------------------

  /** `interpret()` of the expression in slot id: its string and the pool
      afterwards. */
  function Eval(exprs: seq<Expr>, id: Slot): (r: Outcome<(string, seq<Expr>)>)
    requires WellFormed(exprs) && id < |exprs|
    decreases id, 1
    ensures r.Defined? ==> Preserves(exprs, r.value.1, id)
  {
    match exprs[id]
    case Str(s) => Defined((s, exprs))
    case Reverse(a) =>
      (match Eval(exprs, a)
       case Undefined => Undefined
       case Defined((s, ex)) => Defined((Reversed(s), ex)))
    case Splice(a, start, deleteCnt, items) =>
      (match Eval(exprs, a)
       case Undefined => Undefined
       case Defined((s, ex)) =>
         if !AllNonEmpty(items) then Undefined
         else
           var clamped := Splice(a, Min(start, |s|), deleteCnt, items);
           assert RefsBelow(clamped, id);
           Defined((SpliceValue(s, start, deleteCnt, items), ex[id := clamped])))
    case Indexed(e, i) =>
      (match Eval(exprs, e)
       case Undefined => Undefined
       case Defined((s, ex)) =>
         match Eval(ex, i)
         case Undefined => Undefined
         case Defined((idxText, ex2)) =>
           match IndexedValue(s, idxText)
           case Undefined => Undefined
           case Defined(v) => Defined((v, ex2)))
    case Modulo(l, rh) =>
      (match Eval(exprs, l)
       case Undefined => Undefined
       case Defined((ls, ex)) =>
         match Eval(ex, rh)
         case Undefined => Undefined
         case Defined((rs, ex2)) =>
           match ModuloValue(ls, rs)
           case Undefined => Undefined
           case Defined(v) => Defined((v, ex2)))
    case Length(e) =>
      (match Eval(exprs, e)
       case Undefined => Undefined
       case Defined((s, ex)) => Defined((Decimal(|s|), ex)))
    case Assign(src, tgt) =>
      (match Eval(exprs, src)
       case Undefined => Undefined
       case Defined((s, ex)) => Defined(([], ex[tgt := Str(s)])))
    // writes one character, then flows off the end without a return
    case AssignIndexed(_, _, _) => Undefined
    case Nothing => Defined(([], exprs))
    case Routine(_, _, _, stack) => EvalStack(exprs, id, stack, 0)
  }

  /** `Function::interpret` from statement i on: every statement in order,
      the value of the last one; an empty statement list flows off the end. */
  function EvalStack(exprs: seq<Expr>, owner: nat, stack: seq<Slot>, i: nat): (r: Outcome<(string, seq<Expr>)>)
    requires WellFormed(exprs) && owner <= |exprs|
    requires forall k :: 0 <= k < |stack| ==> stack[k] < owner
    decreases owner, 0, |stack| - i
    ensures r.Defined? ==> |r.value.1| == |exprs| && WellFormed(r.value.1)
    ensures r.Defined? ==> forall k :: owner <= k < |exprs| ==> r.value.1[k] == exprs[k]
  {
    if i >= |stack| then Undefined
    else
      match Eval(exprs, stack[i])
      case Undefined => Undefined
      case Defined((v, ex)) =>
        if i == |stack| - 1 then Defined((v, ex)) else EvalStack(ex, owner, stack, i + 1)
  }

  /** Evaluation reaches only the operands of what it evaluates, and writes
      only slots it reaches: evaluating a slot of a closed region changes no
      slot outside the region and leaves it closed, and a slot that held a
      string or `Nothing` still holds one. */
  lemma {:induction false} EvalWithin(exprs: seq<Expr>, id: Slot, lo: nat, named: set<Slot>, nothing: Option<Slot>)
    requires WellFormed(exprs) && id < |exprs| && Eval(exprs, id).Defined?
    requires Closed(exprs, lo, named, nothing) && InRegion(id, lo, named, nothing)
    decreases id, 1
    ensures var after := Eval(exprs, id).value.1;
      && Closed(after, lo, named, nothing)
      && (forall j :: 0 <= j < |exprs| && !InRegion(j, lo, named, nothing) ==> after[j] == exprs[j])
      && (forall j :: 0 <= j < |exprs| && Leaf(exprs[j]) ==> Leaf(after[j]))
  {
    assert RefsIn(exprs[id], lo, named, nothing);
    match exprs[id]
    case Str(_) =>
    case Nothing =>
    case Reverse(a) =>
      EvalWithin(exprs, a, lo, named, nothing);
    case Length(a) =>
      EvalWithin(exprs, a, lo, named, nothing);
    case Splice(a, start, deleteCnt, items) =>
      EvalWithin(exprs, a, lo, named, nothing);
    case Assign(src, tgt) =>
      EvalWithin(exprs, src, lo, named, nothing);
    case Indexed(e, i) =>
      EvalWithin(exprs, e, lo, named, nothing);
      var ex := Eval(exprs, e).value.1;
      EvalWithin(ex, i, lo, named, nothing);
    case Modulo(l, rh) =>
      EvalWithin(exprs, l, lo, named, nothing);
      var ex := Eval(exprs, l).value.1;
      EvalWithin(ex, rh, lo, named, nothing);
    case Routine(_, _, _, stack) =>
      EvalStackWithin(exprs, id, stack, 0, lo, named, nothing);
  }

  /** `EvalWithin` for the statements of a routine, from statement i on. */
  lemma {:induction false} EvalStackWithin(exprs: seq<Expr>, owner: nat, stack: seq<Slot>, i: nat, lo: nat,
                                           named: set<Slot>, nothing: Option<Slot>)
    requires WellFormed(exprs) && owner <= |exprs|
    requires forall k :: 0 <= k < |stack| ==> stack[k] < owner && InRegion(stack[k], lo, named, nothing)
    requires EvalStack(exprs, owner, stack, i).Defined? && Closed(exprs, lo, named, nothing)
    decreases owner, 0, |stack| - i
    ensures var after := EvalStack(exprs, owner, stack, i).value.1;
      && Closed(after, lo, named, nothing)
      && (forall j :: 0 <= j < |exprs| && !InRegion(j, lo, named, nothing) ==> after[j] == exprs[j])
      && (forall j :: 0 <= j < |exprs| && Leaf(exprs[j]) ==> Leaf(after[j]))
  {
    EvalWithin(exprs, stack[i], lo, named, nothing);
    if i < |stack| - 1 {
      var ex := Eval(exprs, stack[i]).value.1;
      EvalStackWithin(ex, owner, stack, i + 1, lo, named, nothing);
    }
  }

  // ---------------------------------------------------------------------
  // Properties of the expression kinds
  // ---------------------------------------------------------------------

  /** Inserting every item's first character at one position leaves them in
      reverse argument order. */
  lemma {:induction false} InsertedAtReverses(s: string, start: nat, items: seq<string>)
    requires start <= |s| && AllNonEmpty(items)
    ensures InsertedAt(s, start, items) == s[..start] + Reversed(Firsts(items)) + s[start..]
    decreases |items|
  {
    if items != [] {
      var s1 := s[..start] + [items[0][0]] + s[start..];
      InsertedAtReverses(s1, start, items[1..]);
      assert s1[..start] == s[..start];
      assert s1[start..] == [items[0][0]] + s[start..];
      assert Firsts(items)[1..] == Firsts(items[1..]);
      assert Reversed(Firsts(items)) == Reversed(Firsts(items[1..])) + [items[0][0]];
    }
  }

  /** `Splice` keeps the text before the clamped start, then the items'
      first characters in reverse order, then what follows the erased
      characters; its length is |s| - removed + #items. */
  lemma SpliceShape(s: string, start: nat, deleteCnt: nat, items: seq<string>)
    requires AllNonEmpty(items)
    ensures var st := Min(start, |s|);
            var removed := Min(deleteCnt, |s| - st);
            && SpliceValue(s, start, deleteCnt, items) == s[..st] + Reversed(Firsts(items)) + s[st + removed..]
            && |SpliceValue(s, start, deleteCnt, items)| == |s| - removed + |items|
            && forall j :: st <= j < st + |items| ==>
                 SpliceValue(s, start, deleteCnt, items)[j] == items[|items| - 1 - (j - st)][0]
  {
    var st := Min(start, |s|);
    var removed := Min(deleteCnt, |s| - st);
    var e := Erased(s, st, deleteCnt);
    InsertedAtReverses(e, st, items);
    assert e[..st] == s[..st];
    assert e[st..] == s[st + removed..];
    var r := Reversed(Firsts(items));
    var v := SpliceValue(s, start, deleteCnt, items);
    forall j | st <= j < st + |items|
      ensures v[j] == items[|items| - 1 - (j - st)][0]
    {
      assert v[j] == r[j - st];
      ReversedAt(Firsts(items), j - st);
    }
  }

  /** Reading back the text of `Length` gives the length. */
  lemma LengthRoundTrip(s: string)
    requires |s| < SIZE_MOD
    ensures StrToULL(Decimal(|s|)) == |s|
  {
    StrToULLOfDecimal(|s|);
  }

  /** `Indexed` with the decimal text of an index inside the string yields
      that one character; one past the end yields NUL; further is undefined. */
  lemma IndexedAt(s: string, idx: nat)
    requires idx < SIZE_MOD
    ensures idx < |s| ==> IndexedValue(s, Decimal(idx)) == Defined([s[idx]])
    ensures idx == |s| ==> IndexedValue(s, Decimal(idx)) == Defined(['\0'])
    ensures idx > |s| ==> IndexedValue(s, Decimal(idx)) == Undefined
  {
    StrToULLOfDecimal(idx);
  }

  /** `Modulo` of two decimal texts is the decimal text of the remainder,
      defined exactly when the divisor is not zero. */
  lemma ModuloOfDecimals(a: nat, b: nat)
    requires a < SIZE_MOD && b < SIZE_MOD
    ensures ModuloValue(Decimal(a), Decimal(b)).Defined? <==> b != 0
    ensures b != 0 ==> ModuloValue(Decimal(a), Decimal(b)) == Defined(Decimal(a % b))
    ensures b != 0 ==> StrToULL(ModuloValue(Decimal(a), Decimal(b)).value) == a % b
  {
    StrToULLOfDecimal(a);
    StrToULLOfDecimal(b);
    if b != 0 {
      StrToULLOfDecimal(a % b);
    }
  }

  /** A statement `Reverse(Reverse(x))` over a string slot gives the
      string back and leaves the pool alone. */
  lemma ReverseReverse(exprs: seq<Expr>, x: Slot, r1: Slot, r2: Slot)
    requires WellFormed(exprs) && x < r1 < r2 < |exprs|
    requires exprs[x].Str? && exprs[r1] == Reverse(x) && exprs[r2] == Reverse(r1)
    ensures Eval(exprs, r2) == Defined((exprs[x].text, exprs))
  {
    assert Eval(exprs, x) == Defined((exprs[x].text, exprs));
    assert Eval(exprs, r1) == Defined((Reversed(exprs[x].text), exprs));
    ReversedTwice(exprs[x].text);
  }

  /** After an `Assign` in slot id has run, its target slot holds the
      value of its source: every handle to the target now reads that value
      (the shared `Nothing` slot included, when it is the target), and the
      statement itself yields "". */
  lemma {:induction false} AssignThenRead(exprs: seq<Expr>, id: Slot)
    requires WellFormed(exprs) && id < |exprs| && exprs[id].Assign?
    requires Eval(exprs, id).Defined?
    ensures var (v, after) := Eval(exprs, id).value;
            var (s, _) := Eval(exprs, exprs[id].source).value;
            && v == []
            && Eval(after, exprs[id].target) == Defined((s, after))
  {
  }

  /** `name = recv.reverse()` and `name = recv.splice(...)` wrap the
      method's `Assign` in a second `Assign`: the outer one stores the
      inner one's value, "", into name's slot. */
  lemma NestedAssignStoresEmpty(exprs: seq<Expr>, id: Slot)
    requires WellFormed(exprs) && id < |exprs| && exprs[id].Assign?
    requires exprs[exprs[id].source].Assign?
    requires Eval(exprs, id).Defined?
    ensures var after := Eval(exprs, id).value.1;
            after[exprs[id].target] == Str([]) && Eval(after, exprs[id].target) == Defined(([], after))
  {
    var src := exprs[id].source;
    assert Eval(exprs, src).value.0 == [];
  }

  /** `toStr[idx] = fromStr[0]`, the write `AssignIndexed` performs before
      it flows off its end: only character idx changes, to the source's
      first character (its NUL when the source is empty). Writing the
      terminating position of a non-const string is undefined, hence idx
      < |target|. `Eval` does not use it: since the C++ function then
      flows off its end without a return, the whole evaluation of an
      `AssignIndexed` is `Undefined`, and this write is never observable. */
  function StoreChar(target: string, idx: nat, source: string): (r: string)
    requires idx < |target|
    ensures |r| == |target|
    ensures r[idx] == (if source == [] then '\0' else source[0])
    ensures forall k :: 0 <= k < |target| && k != idx ==> r[k] == target[k]
  {
    target[..idx] + [if source == [] then '\0' else source[0]] + target[idx + 1..]
  }
}
