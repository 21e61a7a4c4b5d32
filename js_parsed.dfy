/** What a statement of a routine becomes once `parseCode` has parsed it:
    the expression it builds in the pool, stated per rule of `Classify`,
    and the facts about slot numbers that stay true while later statements
    are parsed. */
module JsParsed {
  import opened Text
  import opened JsText
  import opened JsExpr
  import opened JsPatterns

  /** The methods of the strings library that `parseMethodCall` knows. */
  predicate KnownMethod(methodName: string)
  {
    methodName in {"split", "join", "reverse", "length", "splice"}
  }

  /** What a method call on the slot inst names for good: `split` and
      `join` give inst itself, an unknown method the shared `Nothing`. */
  predicate MethodSlot(nothing: Option<Slot>, inst: Slot, methodName: string, slot: Slot)
  {
    && (methodName == "split" || methodName == "join" ==> slot == inst)
    && (!KnownMethod(methodName) ==> nothing == Some(slot))
  }

  /** The `splice` items: every argument after the first two, as raw text. */
  function SpliceItems(args: string): (r: seq<string>)
    ensures |r| == if |SplitSpec(args, ',')| <= 2 then 0 else |SplitSpec(args, ',')| - 2
  {
    var pieces := SplitSpec(args, ',');
    if |pieces| <= 2 then [] else pieces[2..]
  }

  /** Slot j belongs to one statement alone: it is no variable's slot and
      not the shared `Nothing`. */
  predicate Own(nothing: Option<Slot>, scope: map<string, Slot>, j: Slot)
  {
    j !in scope.Values && nothing != Some(j)
  }

  /** The expression `parseMethodCall` builds for `inst.methodName(args)`:
      `reverse` and `splice` an `Assign` of the new value back into inst,
      `length` a `Length` of inst; the slots built are the call's own. */
  predicate MethodResult(exprs: seq<Expr>, nothing: Option<Slot>, scope: map<string, Slot>, inst: Slot,
                         methodName: string, args: string, slot: Slot)
  {
    && slot < |exprs|
    && MethodSlot(nothing, inst, methodName, slot)
    && (methodName == "reverse" ==>
          && 0 < slot && exprs[slot] == Assign(slot - 1, inst) && exprs[slot - 1] == Reverse(inst)
          && Own(nothing, scope, slot) && Own(nothing, scope, slot - 1))
    && (methodName == "length" ==> exprs[slot] == Length(inst) && Own(nothing, scope, slot))
    && (methodName == "splice" ==>
          && 0 < slot && exprs[slot] == Assign(slot - 1, inst)
          && exprs[slot - 1].Splice? && exprs[slot - 1].arg == inst && exprs[slot - 1].items == SpliceItems(args)
          && Own(nothing, scope, slot) && Own(nothing, scope, slot - 1))
  }

  /** What the slot of statement t names: a variable its own slot, and an
      unknown variable, object or method the shared `Nothing`. */
  predicate Names(nothing: Option<Slot>, scope: map<string, Slot>, t: string, slot: Slot)
  {
    RuleNames(Classify(scope.Keys, t), nothing, scope, t, slot)
  }

  /** `Names` for statement t classified as rule. */
  predicate RuleNames(rule: Rule, nothing: Option<Slot>, scope: map<string, Slot>, t: string, slot: Slot)
  {
    match rule
    case LocalVar => t in scope && slot == scope[t]
    case AssignMethod(v, i, _, _) => v !in scope || i !in scope ==> nothing == Some(slot)
    case MethodCall(v, m, _) => v in scope ==> MethodSlot(nothing, scope[v], m, slot)
    case InstanceProperty(v, p) => if v in scope then MethodSlot(nothing, scope[v], p, slot) else nothing == Some(slot)
    case Unrecognized => nothing == Some(slot)
    case _ => true
  }

  /** The operand texts of a compound statement, in the order `parseCode`
      parses them (the order of the constructor's arguments). */
  function Operands(rule: Rule): (r: seq<string>)
    requires rule.AssignIndexed? || rule.AssignAny? || rule.Indexed? || rule.Modulo?
    ensures |r| == if rule.AssignIndexed? then 3 else 2
  {
    match rule
    case AssignIndexed(target, index, source) => [source, target, index]
    case AssignAny(target, source) => [source, target]
    case Indexed(variable, index) => [variable, index]
    case Modulo(lhs, rhs) => [lhs, rhs]
  }

  /** The expression of a compound statement over its operands' slots. */
  function Compound(rule: Rule, ops: seq<Slot>): Expr
    requires rule.AssignIndexed? || rule.AssignAny? || rule.Indexed? || rule.Modulo?
    requires |ops| == |Operands(rule)|
  {
    match rule
    case AssignIndexed(_, _, _) => Expr.AssignIndexed(ops[0], ops[1], ops[2])
    case AssignAny(_, _) => Assign(ops[0], ops[1])
    case Indexed(_, _) => Expr.Indexed(ops[0], ops[1])
    case Modulo(_, _) => Expr.Modulo(ops[0], ops[1])
  }

  /** The expression `parseCode` builds for statement t in the given scope:
      a slot of the pool that names what `Names` says, holding what
      `RuleBuilds` says. */
  predicate Parsed(exprs: seq<Expr>, nothing: Option<Slot>, scope: map<string, Slot>, t: string, slot: Slot)
    decreases |t|, 1
  {
    slot < |exprs| && Names(nothing, scope, t, slot) && RuleBuilds(Classify(scope.Keys, t), exprs, nothing, scope, t, slot)
  }

  /** The expression in slot for statement t classified as rule: a literal is
      a `Str` of its text, a compound statement the expression of its rule
      over slots that are each its operand text parsed, a method call on a
      variable the `MethodResult`, and `name = recv.method(...)` an
      `Assign` of that result to name's slot. Every slot whose expression is
      stated here is the statement's own. */
  predicate RuleBuilds(rule: Rule, exprs: seq<Expr>, nothing: Option<Slot>, scope: map<string, Slot>, t: string,
                       slot: Slot)
    requires slot < |exprs| && GroupsShorter(rule, |t|)
    decreases |t|, 0
  {
    match rule
    case IntegerLiteral => exprs[slot] == Str(t) && Own(nothing, scope, slot)
    case AssignMethod(v, i, m, args) =>
      v in scope && i in scope ==>
        && exprs[slot].Assign? && exprs[slot].target == scope[v] && Own(nothing, scope, slot)
        && MethodResult(exprs, nothing, scope, scope[i], m, args, exprs[slot].source)
    case AssignIndexed(target, index, source) =>
      && exprs[slot].AssignIndexed? && Own(nothing, scope, slot)
      && Parsed(exprs, nothing, scope, source, exprs[slot].source)
      && Parsed(exprs, nothing, scope, target, exprs[slot].target)
      && Parsed(exprs, nothing, scope, index, exprs[slot].idx)
    case AssignAny(target, source) =>
      && exprs[slot].Assign? && Own(nothing, scope, slot)
      && Parsed(exprs, nothing, scope, source, exprs[slot].source)
      && Parsed(exprs, nothing, scope, target, exprs[slot].target)
    case Indexed(v, index) =>
      && exprs[slot].Indexed? && Own(nothing, scope, slot)
      && Parsed(exprs, nothing, scope, v, exprs[slot].expr)
      && Parsed(exprs, nothing, scope, index, exprs[slot].idx)
    case Modulo(lhs, rhs) =>
      && exprs[slot].Modulo? && Own(nothing, scope, slot)
      && Parsed(exprs, nothing, scope, lhs, exprs[slot].lhs)
      && Parsed(exprs, nothing, scope, rhs, exprs[slot].rhs)
    case MethodCall(v, m, args) =>
      if v in scope then MethodResult(exprs, nothing, scope, scope[v], m, args, slot)
      else (exprs[slot].Routine? && Own(nothing, scope, slot)) || nothing == Some(slot)
    case InstanceProperty(v, p) => v in scope ==> MethodResult(exprs, nothing, scope, scope[v], p, "", slot)
    case DefineFromIndexed(_, _, _) => false
    case _ => true
  }

  /** The first two arguments of a `splice` are integer literals (a missing
      one counts 0). */
  predicate LiteralCounts(scope: map<string, Slot>, args: string)
  {
    var pieces := SplitSpec(args, ',');
    forall k :: 0 <= k < |pieces| && k < 2 ==> pieces[k] !in scope && AllDigits(pieces[k])
  }

  /** Statement t parses whatever the pool holds: it calls no routine of an
      object outside the scope, and each `splice` in it has literal counts. */
  predicate Total(scope: map<string, Slot>, t: string)
    decreases |t|
  {
    var rule := Classify(scope.Keys, t);
    match rule
    case AssignMethod(v, i, m, args) => v in scope && i in scope && m == "splice" ==> LiteralCounts(scope, args)
    case AssignIndexed(target, index, source) => Total(scope, source) && Total(scope, target) && Total(scope, index)
    case AssignAny(target, source) => Total(scope, source) && Total(scope, target)
    case Indexed(v, index) => Total(scope, v) && Total(scope, index)
    case Modulo(lhs, rhs) => Total(scope, lhs) && Total(scope, rhs)
    case MethodCall(v, m, args) => v in scope && (m == "splice" ==> LiteralCounts(scope, args))
    case _ => true
  }

  /** The count a `splice` start or delete-count argument t yields when it
      is a literal or a variable of the scope: strtoull of the text it
      evaluates to, with the pool after it is parsed and evaluated (a
      literal is pushed as a `Str`; a variable's slot is evaluated, which
      may rewrite slots). Other statements are not described here. A
      variable is tried first, then a literal, as `Classify` does. */
  function CountValue(exprs: seq<Expr>, scope: map<string, Slot>, t: string): (r: Option<(nat, seq<Expr>)>)
    requires WellFormed(exprs) && forall v :: v in scope ==> scope[v] < |exprs|
    ensures r.Some? ==> WellFormed(r.value.1) && |r.value.1| >= |exprs|
    ensures t !in scope && AllDigits(t) ==> r == Some((StrToULL(t), exprs + [Str(t)]))
    ensures t !in scope && !AllDigits(t) ==> r.None?
  {
    if t in scope then
      match Eval(exprs, scope[t])
      case Defined((s, after)) => Some((StrToULL(s), after))
      case Undefined => None
    else if AllDigits(t) then
      assert WellFormed(exprs + [Str(t)]) by {
        forall k | 0 <= k < |exprs| + 1
          ensures RefsBelow((exprs + [Str(t)])[k], k)
        {
          if k < |exprs| {
            assert (exprs + [Str(t)])[k] == exprs[k];
          }
        }
      }
      Some((StrToULL(t), exprs + [Str(t)]))
    else None
  }

  /** The start and the delete count `splice` is parsed with, when each of
      its first two arguments is a literal or a variable of the scope: each
      read with strtoull from what it evaluates to, the second evaluated in
      the pool the first left behind; a missing argument counts 0. */
  function SpliceCounts(exprs: seq<Expr>, scope: map<string, Slot>, pieces: seq<string>): Option<(nat, nat)>
    requires WellFormed(exprs) && forall v :: v in scope ==> scope[v] < |exprs|
  {
    if |pieces| == 0 then Some((0, 0))
    else
      match CountValue(exprs, scope, pieces[0])
      case None => None
      case Some((start, after)) =>
        if |pieces| == 1 then Some((start, 0))
        else
          match CountValue(after, scope, pieces[1])
          case None => None
          case Some((deleteCnt, _)) => Some((start, deleteCnt))
  }

  /** Parsing a literal or a variable, then evaluating its slot, is what
      `CountValue` describes. */
  lemma CountValueOfParsed(before: seq<Expr>, parsed: seq<Expr>, scope: map<string, Slot>, t: string,
                           slot: Slot, text: string, after: seq<Expr>)
    requires WellFormed(before) && forall v :: v in scope ==> scope[v] < |before|
    requires WellFormed(parsed) && slot < |parsed| && Eval(parsed, slot) == Defined((text, after))
    requires t in scope ==> slot == scope[t] && parsed == before
    requires t !in scope && AllDigits(t) ==> parsed == before + [Str(t)] && parsed[slot] == Str(t)
    ensures CountValue(before, scope, t).Some? ==> CountValue(before, scope, t).value == (StrToULL(text), after)
  {
  }

  /** The operands of a statement that parses whatever the pool holds
      parse whatever it holds. */
  lemma TotalOperands(scope: map<string, Slot>, t: string)
    requires var rule := Classify(scope.Keys, t);
      rule.AssignIndexed? || rule.AssignAny? || rule.Indexed? || rule.Modulo?
    ensures Total(scope, t) ==>
      var texts := Operands(Classify(scope.Keys, t));
      forall k :: 0 <= k < |texts| ==> Total(scope, texts[k])
  {
  }

  /** With literal counts, `splice`'s counts are defined whatever the pool
      holds. */
  lemma LiteralCountsDefined(exprs: seq<Expr>, scope: map<string, Slot>, args: string)
    requires WellFormed(exprs) && forall v :: v in scope ==> scope[v] < |exprs|
    ensures LiteralCounts(scope, args) ==> SpliceCounts(exprs, scope, SplitSpec(args, ',')).Some?
  {
  }

  // ---------------------------------------------------------------------
  // What parsing does to the statements parsed before
  // ---------------------------------------------------------------------

  /** The variables' slots and `Nothing` hold a string or `Nothing`: a
      variable is bound to a variable of the caller or to a constant string,
      and evaluation only ever stores strings in them. */
  predicate LeafScope(exprs: seq<Expr>, scope: map<string, Slot>, nothing: Option<Slot>)
  {
    && (forall v :: v in scope ==> scope[v] < |exprs| && Leaf(exprs[scope[v]]))
    && (nothing.Some? ==> nothing.value < |exprs| && Leaf(exprs[nothing.value]))
  }

  /** How the pool may change while statements are parsed in a scope whose
      variables name the slots in named: it only grows, `Nothing` once made
      stays (and is made past the old end), and every old slot that is
      neither a variable's nor `Nothing` keeps its expression. */
  predicate Framed(before: seq<Expr>, after: seq<Expr>, named: set<Slot>, nothing: Option<Slot>,
                   nothingAfter: Option<Slot>)
  {
    && |before| <= |after|
    && (nothing.Some? ==> nothingAfter == nothing)
    && (nothing.None? && nothingAfter.Some? ==> |before| <= nothingAfter.value)
    && forall j {:trigger after[j]} {:trigger before[j]} ::
         0 <= j < |before| && j !in named && nothing != Some(j) ==> after[j] == before[j]
  }

  /** `Framed`, and the new slots other than `Nothing` and the variables'
      refer only to new slots, variables and `Nothing`; so evaluating what
      was parsed cannot reach, let alone rewrite, a slot of an earlier
      statement. */
  predicate Grows(before: seq<Expr>, after: seq<Expr>, named: set<Slot>, nothing: Option<Slot>,
                  nothingAfter: Option<Slot>)
  {
    && Framed(before, after, named, nothing, nothingAfter)
    && forall j {:trigger after[j]} :: |before| <= j < |after| && j !in named && nothingAfter != Some(j) ==>
         RefsIn(after[j], |before|, named, nothingAfter)
  }

  /** A wider region holds what a narrower one holds. */
  lemma RefsInWider(e: Expr, lo: nat, named: set<Slot>, nothing: Option<Slot>,
                    lo': nat, named': set<Slot>, nothing': Option<Slot>)
    requires RefsIn(e, lo, named, nothing)
    requires lo' <= lo && (nothing.Some? ==> nothing' == nothing)
    requires forall s :: s in named ==> s in named' || lo' <= s
    ensures RefsIn(e, lo', named', nothing')
  {
  }

  lemma GrowsRefl(exprs: seq<Expr>, named: set<Slot>, nothing: Option<Slot>)
    ensures Grows(exprs, exprs, named, nothing, nothing)
  {
  }

  /** Pushing an expression over slots of the region keeps `Grows`. */
  lemma GrowsPush(before: seq<Expr>, mid: seq<Expr>, e: Expr, named: set<Slot>, nothing: Option<Slot>,
                  nothingMid: Option<Slot>)
    requires Grows(before, mid, named, nothing, nothingMid) && RefsIn(e, |before|, named, nothingMid)
    ensures Grows(before, mid + [e], named, nothing, nothingMid)
  {
    forall j | 0 <= j < |mid|
      ensures (mid + [e])[j] == mid[j]
    {
    }
  }

  /** Making the shared `Nothing` keeps `Grows`. */
  lemma GrowsPushNothing(before: seq<Expr>, mid: seq<Expr>, named: set<Slot>, nothing: Option<Slot>)
    requires Grows(before, mid, named, nothing, None)
    ensures Grows(before, mid + [Nothing], named, nothing, Some(|mid|))
  {
    forall j | 0 <= j < |mid|
      ensures (mid + [Nothing])[j] == mid[j]
    {
    }
    forall j | |before| <= j < |mid| + 1 && j !in named && Some(|mid|) != Some(j)
      ensures RefsIn((mid + [Nothing])[j], |before|, named, Some(|mid|))
    {
      RefsInWider(mid[j], |before|, named, None, |before|, named, Some(|mid|));
    }
  }

  /** One parse after the other. */
  lemma GrowsTrans(a: seq<Expr>, b: seq<Expr>, c: seq<Expr>, named: set<Slot>,
                   na: Option<Slot>, nb: Option<Slot>, nc: Option<Slot>)
    requires Grows(a, b, named, na, nb) && Grows(b, c, named, nb, nc)
    ensures Grows(a, c, named, na, nc)
  {
    forall j | |a| <= j < |c| && j !in named && nc != Some(j)
      ensures RefsIn(c[j], |a|, named, nc)
    {
      if j < |b| {
        RefsInWider(b[j], |a|, named, nb, |a|, named, nc);
      } else {
        RefsInWider(c[j], |b|, named, nc, |a|, named, nc);
      }
    }
  }

  /** `Grows` over fewer named slots gives `Grows` over more. */
  lemma GrowsWiden(before: seq<Expr>, after: seq<Expr>, named: set<Slot>, named': set<Slot>,
                   nothing: Option<Slot>, nothingAfter: Option<Slot>)
    requires Grows(before, after, named, nothing, nothingAfter) && named <= named'
    ensures Grows(before, after, named', nothing, nothingAfter)
  {
    forall j | |before| <= j < |after| && j !in named' && nothingAfter != Some(j)
      ensures RefsIn(after[j], |before|, named', nothingAfter)
    {
      RefsInWider(after[j], |before|, named, nothingAfter, |before|, named', nothingAfter);
    }
  }

  /** Pushing keeps every slot: `Framed` whatever is pushed. */
  lemma FramedPush(exprs: seq<Expr>, e: Expr, named: set<Slot>, nothing: Option<Slot>)
    ensures Framed(exprs, exprs + [e], named, nothing, nothing)
  {
    forall j | 0 <= j < |exprs|
      ensures (exprs + [e])[j] == exprs[j]
    {
    }
  }

  /** `getNothing` after a parse: the shared `Nothing` is made when it is
      missing, and otherwise nothing changes. */
  lemma NothingGrows(before: seq<Expr>, mid: seq<Expr>, after: seq<Expr>, named: set<Slot>,
                     nothing: Option<Slot>, nothingMid: Option<Slot>, nothingAfter: Option<Slot>)
    requires Grows(before, mid, named, nothing, nothingMid)
    requires nothingMid.Some? ==> after == mid && nothingAfter == nothingMid
    requires nothingMid.None? ==> after == mid + [Nothing] && nothingAfter == Some(|mid|)
    ensures Grows(before, after, named, nothing, nothingAfter)
  {
    if nothingMid.None? {
      GrowsPushNothing(before, mid, named, nothing);
    }
  }

  /** A routine called while a statement is parsed: its arguments are
      pushed, its parameters name variables of the caller or those argument
      slots, and its body is parsed in its own scope. Seen from the caller,
      the pool grows as for any statement, and the caller's variables keep
      holding strings. */
  lemma GrowsThroughCall(before: seq<Expr>, mid: seq<Expr>, after: seq<Expr>, scope: map<string, Slot>,
                         callee: map<string, Slot>, nothing: Option<Slot>, nothingAfter: Option<Slot>)
    requires Grows(before, mid, scope.Values, nothing, nothing)
    requires Grows(mid, after, callee.Values, nothing, nothingAfter)
    requires forall v :: v in callee ==> callee[v] in scope.Values || |before| <= callee[v] < |mid|
    requires LeafScope(mid, scope, nothing) && LeafScope(after, callee, nothingAfter)
    ensures Grows(before, after, scope.Values, nothing, nothingAfter)
    ensures LeafScope(after, scope, nothingAfter)
  {
    forall s | s in callee.Values
      ensures (s in scope.Values || |before| <= s < |mid|) && s < |after| && Leaf(after[s])
    {
      var v :| v in callee && callee[v] == s;
    }
    forall j | |before| <= j < |after| && j !in scope.Values && nothingAfter != Some(j)
      ensures RefsIn(after[j], |before|, scope.Values, nothingAfter)
    {
      if j >= |mid| {
        RefsInWider(after[j], |mid|, callee.Values, nothingAfter, |before|, scope.Values, nothingAfter);
      } else if j !in callee.Values {
        RefsInWider(mid[j], |before|, scope.Values, nothing, |before|, scope.Values, nothingAfter);
      }
    }
  }

  /** Pushing an expression over slots of the region (those from |before|
      on, the named ones and `Nothing`): the pool grows as a statement's
      parse should, the variables keep their strings, the new slot is
      neither a variable's nor `Nothing`, and every older slot is kept. */
  lemma Pushed(before: seq<Expr>, mid: seq<Expr>, e: Expr, scope: map<string, Slot>, named: set<Slot>,
               nothing: Option<Slot>, nothingMid: Option<Slot>)
    requires Grows(before, mid, named, nothing, nothingMid) && LeafScope(mid, scope, nothingMid)
    requires RefsIn(e, |before|, named, nothingMid)
    ensures Grows(before, mid + [e], named, nothing, nothingMid)
    ensures LeafScope(mid + [e], scope, nothingMid)
    ensures Own(nothingMid, scope, |mid|)
    ensures Framed(mid, mid + [e], scope.Values, nothingMid, nothingMid)
  {
    GrowsPush(before, mid, e, named, nothing, nothingMid);
    FramedPush(mid, e, scope.Values, nothingMid);
    FreshNotNamed(scope, |mid|);
  }

  /** The `splice` counts are evaluated when they are parsed: the slot
      evaluated is in the region the parse may use, so the evaluation
      keeps `Grows`, and the variables and `Nothing` keep holding strings. */
  lemma GrowsThroughEval(before: seq<Expr>, mid: seq<Expr>, scope: map<string, Slot>, nothing: Option<Slot>,
                         nothingMid: Option<Slot>, id: Slot)
    requires Grows(before, mid, scope.Values, nothing, nothingMid) && LeafScope(mid, scope, nothingMid)
    requires WellFormed(mid) && id < |mid| && Eval(mid, id).Defined?
    requires InRegion(id, |before|, scope.Values, nothingMid)
    ensures Grows(before, Eval(mid, id).value.1, scope.Values, nothing, nothingMid)
    ensures LeafScope(Eval(mid, id).value.1, scope, nothingMid)
  {
    forall j | 0 <= j < |mid| && InRegion(j, |before|, scope.Values, nothingMid)
      ensures RefsIn(mid[j], |before|, scope.Values, nothingMid)
    {
      if j in scope.Values {
        var v :| v in scope && scope[v] == j;
      }
    }
    EvalWithin(mid, id, |before|, scope.Values, nothingMid);
  }

  /** A slot past the end is no variable's. */
  lemma FreshNotNamed(scope: map<string, Slot>, n: nat)
    requires forall v :: v in scope ==> scope[v] < n
    ensures forall j :: n <= j ==> j !in scope.Values
  {
  }

  /** What `Names` states survives the statements parsed later. */
  lemma NamesKept(before: Option<Slot>, after: Option<Slot>, scope: map<string, Slot>, t: string, slot: Slot)
    requires Names(before, scope, t, slot)
    requires before.Some? ==> after == before
    ensures Names(after, scope, t, slot)
  {
  }

  /** A method call's expression survives the statements parsed later. */
  lemma MethodResultKept(before: seq<Expr>, after: seq<Expr>, nothing: Option<Slot>, nothingAfter: Option<Slot>,
                         scope: map<string, Slot>, inst: Slot, methodName: string, args: string, slot: Slot)
    requires MethodResult(before, nothing, scope, inst, methodName, args, slot)
    requires Framed(before, after, scope.Values, nothing, nothingAfter)
    ensures MethodResult(after, nothingAfter, scope, inst, methodName, args, slot)
  {
  }

  /** What `Parsed` states survives the statements parsed later: they
      change no slot of the statement's own. */
  lemma {:induction false} ParsedKept(before: seq<Expr>, after: seq<Expr>, nothing: Option<Slot>,
                                      nothingAfter: Option<Slot>, scope: map<string, Slot>, t: string, slot: Slot)
    requires Parsed(before, nothing, scope, t, slot)
    requires Framed(before, after, scope.Values, nothing, nothingAfter)
    ensures Parsed(after, nothingAfter, scope, t, slot)
    decreases |t|
  {
    NamesKept(nothing, nothingAfter, scope, t, slot);
    var rule := Classify(scope.Keys, t);
    match rule
    case AssignIndexed(target, index, source) =>
      ParsedKept(before, after, nothing, nothingAfter, scope, source, before[slot].source);
      ParsedKept(before, after, nothing, nothingAfter, scope, target, before[slot].target);
      ParsedKept(before, after, nothing, nothingAfter, scope, index, before[slot].idx);
    case AssignAny(target, source) =>
      ParsedKept(before, after, nothing, nothingAfter, scope, source, before[slot].source);
      ParsedKept(before, after, nothing, nothingAfter, scope, target, before[slot].target);
    case Indexed(v, index) =>
      ParsedKept(before, after, nothing, nothingAfter, scope, v, before[slot].expr);
      ParsedKept(before, after, nothing, nothingAfter, scope, index, before[slot].idx);
    case Modulo(lhs, rhs) =>
      ParsedKept(before, after, nothing, nothingAfter, scope, lhs, before[slot].lhs);
      ParsedKept(before, after, nothing, nothingAfter, scope, rhs, before[slot].rhs);
    case AssignMethod(v, i, m, args) =>
      if v in scope && i in scope {
        MethodResultKept(before, after, nothing, nothingAfter, scope, scope[i], m, args, before[slot].source);
      }
    case MethodCall(v, m, args) =>
      if v in scope {
        MethodResultKept(before, after, nothing, nothingAfter, scope, scope[v], m, args, slot);
      }
    case InstanceProperty(v, p) =>
      if v in scope {
        MethodResultKept(before, after, nothing, nothingAfter, scope, scope[v], p, "", slot);
      }
    case _ =>
  }

  /** `Parsed` holds for the statement texts and their slots, pairwise. */
  predicate AllParsed(exprs: seq<Expr>, nothing: Option<Slot>, scope: map<string, Slot>, texts: seq<string>,
                      slots: seq<Slot>)
  {
    |slots| <= |texts| && forall k :: 0 <= k < |slots| ==> Parsed(exprs, nothing, scope, texts[k], slots[k])
  }

  /** One more statement parsed: the earlier ones keep what they built and
      the new one joins them. */
  lemma AllParsedGrows(before: seq<Expr>, after: seq<Expr>, nothing: Option<Slot>, nothingAfter: Option<Slot>,
                       scope: map<string, Slot>, texts: seq<string>, slots: seq<Slot>, slot: Slot)
    requires AllParsed(before, nothing, scope, texts, slots) && |slots| < |texts|
    requires Framed(before, after, scope.Values, nothing, nothingAfter)
    requires Parsed(after, nothingAfter, scope, texts[|slots|], slot)
    ensures AllParsed(after, nothingAfter, scope, texts, slots + [slot])
  {
    forall k | 0 <= k < |slots| + 1
      ensures Parsed(after, nothingAfter, scope, texts[k], (slots + [slot])[k])
    {
      if k < |slots| {
        ParsedKept(before, after, nothing, nothingAfter, scope, texts[k], slots[k]);
      }
    }
  }

  /** A compound statement pushed over operand slots that are its operand
      texts parsed is what `Parsed` describes. */
  lemma CompoundParsed(before: seq<Expr>, nothing: Option<Slot>, scope: map<string, Slot>, t: string,
                       ops: seq<Slot>)
    requires var rule := Classify(scope.Keys, t);
      && (rule.AssignIndexed? || rule.AssignAny? || rule.Indexed? || rule.Modulo?)
      && |ops| == |Operands(rule)|
      && AllParsed(before, nothing, scope, Operands(rule), ops)
    requires Own(nothing, scope, |before|)
    ensures Parsed(before + [Compound(Classify(scope.Keys, t), ops)], nothing, scope, t, |before|)
  {
    var rule := Classify(scope.Keys, t);
    var after := before + [Compound(rule, ops)];
    assert Framed(before, after, scope.Values, nothing, nothing) by {
      forall j | 0 <= j < |before|
        ensures after[j] == before[j]
      {
      }
    }
    ParsedKept(before, after, nothing, nothing, scope, Operands(rule)[0], ops[0]);
    ParsedKept(before, after, nothing, nothing, scope, Operands(rule)[1], ops[1]);
    if rule.AssignIndexed? {
      ParsedKept(before, after, nothing, nothing, scope, Operands(rule)[2], ops[2]);
    }
  }

  /** Pushing a compound statement over operands parsed in the region the
      statement may use keeps the pool growing as a statement's parse
      should, keeps the variables' strings, and builds what `Parsed`
      describes. */
  lemma CompoundPushed(before: seq<Expr>, mid: seq<Expr>, nothing: Option<Slot>, nothingMid: Option<Slot>,
                       scope: map<string, Slot>, t: string, ops: seq<Slot>)
    requires var rule := Classify(scope.Keys, t);
      && (rule.AssignIndexed? || rule.AssignAny? || rule.Indexed? || rule.Modulo?)
      && |ops| == |Operands(rule)|
      && AllParsed(mid, nothingMid, scope, Operands(rule), ops)
    requires Grows(before, mid, scope.Values, nothing, nothingMid) && LeafScope(mid, scope, nothingMid)
    requires forall k :: 0 <= k < |ops| ==> InRegion(ops[k], |before|, scope.Values, nothingMid)
    ensures var after := mid + [Compound(Classify(scope.Keys, t), ops)];
      && Grows(before, after, scope.Values, nothing, nothingMid)
      && LeafScope(after, scope, nothingMid)
      && Parsed(after, nothingMid, scope, t, |mid|)
  {
    var e := Compound(Classify(scope.Keys, t), ops);
    assert RefsIn(e, |before|, scope.Values, nothingMid);
    GrowsPush(before, mid, e, scope.Values, nothing, nothingMid);
    FreshNotNamed(scope, |mid|);
    CompoundParsed(mid, nothingMid, scope, t, ops);
  }

  /** A slice one element longer: the `splice` items gathered one piece
      after the other. */
  lemma SliceExtends(s: seq<string>, lo: nat, hi: nat)
    requires lo <= hi < |s|
    ensures s[lo..hi + 1] == s[lo..hi] + [s[hi]]
  {
  }

  /** The counts the `splice` argument loop ends with are `SpliceCounts`:
      the start from the first argument, the delete count from the second
      in the pool the first left, 0 for each one missing. */
  lemma SpliceCountsOf(exprs: seq<Expr>, scope: map<string, Slot>, pieces: seq<string>,
                       afterStart: seq<Expr>, start: nat, deleteCnt: nat)
    requires WellFormed(exprs) && forall v :: v in scope ==> scope[v] < |exprs|
    requires |pieces| == 0 ==> start == 0
    requires |pieces| <= 1 ==> deleteCnt == 0
    requires |pieces| >= 1 && CountValue(exprs, scope, pieces[0]).Some? ==>
      (start, afterStart) == CountValue(exprs, scope, pieces[0]).value
    requires |pieces| >= 2 && CountValue(exprs, scope, pieces[0]).Some? && CountValue(afterStart, scope, pieces[1]).Some? ==>
      deleteCnt == CountValue(afterStart, scope, pieces[1]).value.0
    ensures SpliceCounts(exprs, scope, pieces).Some? ==> (start, deleteCnt) == SpliceCounts(exprs, scope, pieces).value
  {
  }

  /** A `Splice` of inst followed by the `Assign` of its value back into
      inst, both the call's own, is what `splice` builds. */
  lemma SpliceBuilt(exprs: seq<Expr>, nothing: Option<Slot>, scope: map<string, Slot>, inst: Slot, args: string,
                    slot: Slot)
    requires 0 < slot < |exprs| && exprs[slot] == Assign(slot - 1, inst)
    requires exprs[slot - 1].Splice? && exprs[slot - 1].arg == inst && exprs[slot - 1].items == SpliceItems(args)
    requires Own(nothing, scope, slot) && Own(nothing, scope, slot - 1)
    ensures MethodResult(exprs, nothing, scope, inst, "splice", args, slot)
  {
  }

  /** The two expressions `splice` pushes, the splice over inst and the
      assignment of its result back into inst, keep the pool growing as a
      statement's parse should and are what `MethodResult` describes. */
  lemma SplicePushed(before: seq<Expr>, mid: seq<Expr>, nothing: Option<Slot>, nothingMid: Option<Slot>,
                     scope: map<string, Slot>, inst: Slot, start: nat, deleteCnt: nat, args: string)
    requires Grows(before, mid, scope.Values + {inst}, nothing, nothingMid) && LeafScope(mid, scope, nothingMid)
    requires inst < |mid|
    ensures var splice := Splice(inst, start, deleteCnt, SpliceItems(args));
      var after := mid + [splice] + [Assign(|mid|, inst)];
      && Grows(before, after, scope.Values + {inst}, nothing, nothingMid)
      && LeafScope(after, scope, nothingMid)
      && MethodResult(after, nothingMid, scope, inst, "splice", args, |mid| + 1)
  {
    var named := scope.Values + {inst};
    var splice := Splice(inst, start, deleteCnt, SpliceItems(args));
    GrowsPush(before, mid, splice, named, nothing, nothingMid);
    GrowsPush(before, mid + [splice], Assign(|mid|, inst), named, nothing, nothingMid);
    assert mid + [splice] + [Assign(|mid|, inst)] == mid + [splice, Assign(|mid|, inst)];
    FreshNotNamed(scope, |mid|);
    SpliceBuilt(mid + [splice, Assign(|mid|, inst)], nothingMid, scope, inst, args, |mid| + 1);
  }

  /** `name = recv.reverse()` and `name = recv.splice(...)`, with both names
      in scope, parse to an `Assign` into name's slot whose source is the
      method's own `Assign` into recv; running it stores the inner
      assignment's value, "", into name. */
  lemma AssignMethodStoresEmpty(exprs: seq<Expr>, nothing: Option<Slot>, scope: map<string, Slot>, t: string,
                                slot: Slot)
    requires WellFormed(exprs) && Parsed(exprs, nothing, scope, t, slot)
    requires var rule := Classify(scope.Keys, t);
      && rule.AssignMethod? && rule.variable in scope && rule.instance in scope
      && (rule.methodName == "reverse" || rule.methodName == "splice")
    requires Eval(exprs, slot).Defined?
    ensures exprs[slot].Assign? && exprs[slot].target == scope[Classify(scope.Keys, t).variable]
    ensures var after := Eval(exprs, slot).value.1;
            var name := scope[Classify(scope.Keys, t).variable];
            after[name] == Str([]) && Eval(after, name) == Defined(([], after))
  {
    NestedAssignStoresEmpty(exprs, slot);
  }

  /** `var c=a[0]`: `(.*)=(.*)` takes the whole "var c" as the target, which
      names no variable, so the statement assigns into the shared `Nothing`
      slot; once it has run, `Nothing` reads the source's value. */
  lemma AssignToUnknownTarget(exprs: seq<Expr>, nothing: Option<Slot>, scope: map<string, Slot>, t: string,
                              slot: Slot)
    requires WellFormed(exprs) && Parsed(exprs, nothing, scope, t, slot)
    requires var rule := Classify(scope.Keys, t);
      rule.AssignAny? && Classify(scope.Keys, rule.target).Unrecognized?
    requires Eval(exprs, slot).Defined?
    ensures exprs[slot].Assign? && nothing == Some(exprs[slot].target)
    ensures var (v, after) := Eval(exprs, slot).value;
            var (s, _) := Eval(exprs, exprs[slot].source).value;
            v == [] && Eval(after, nothing.value) == Defined((s, after))
  {
    var rule := Classify(scope.Keys, t);
    assert Parsed(exprs, nothing, scope, rule.target, exprs[slot].target);
    AssignThenRead(exprs, slot);
  }

  /** `var c=a[0]` in the deciphering routine: the declaration is no
      variable of the scope, so the assignment writes the element into the
      pool's Nothing and the variable `c` is never bound. */
  lemma DeclarationTargetsNothing(exprs: seq<Expr>, nothing: Option<Slot>, scope: map<string, Slot>, slot: Slot)
    requires WellFormed(exprs) && Parsed(exprs, nothing, scope, "var c=a[0]", slot)
    requires "var c=a[0]" !in scope && "var c" !in scope
    requires Eval(exprs, slot).Defined?
    ensures exprs[slot].Assign? && nothing == Some(exprs[slot].target)
    ensures var (v, after) := Eval(exprs, slot).value;
            var (s, _) := Eval(exprs, exprs[slot].source).value;
            v == [] && Eval(after, nothing.value) == Defined((s, after))
  {
    DeclarationFromIndexClassified(scope.Keys);
    assert "var " + "c" == "var c";
    DeclarationUnrecognized(scope.Keys, "c");
    AssignToUnknownTarget(exprs, nothing, scope, "var c=a[0]", slot);
  }
}
