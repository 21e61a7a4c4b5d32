/** `Function`: a routine of the script, parsed statement by statement into
    the expression pool. Its scope holds the parameters bound to argument
    slots (`_varMap`), the routines of other objects met so far
    (`_fnMap`) and the parsed statements (`_stack`). Parsing a call to
    another routine parses that routine's body on the spot, so a script
    whose routines call each other without end would exhaust the stack;
    `fuel` bounds that nesting depth and running out of it is undefined. */
module JsFunction {
  import opened Text
  import opened JsText
  import opened JsExpr
  import opened JsPool
  import opened JsPatterns
  import opened JsParsed

  // ---------------------------------------------------------------------
  // Binding the parameters
  // ---------------------------------------------------------------------

  /** `setArguments` from the map m on: each name is bound to the argument
      whose index is the map's current size. `std::map::insert` keeps a
      name already bound, but the argument is read all the same, and
      reading past the last argument is undefined. */
  function BindFrom(names: seq<string>, args: seq<Slot>, m: map<string, Slot>): (r: Outcome<map<string, Slot>>)
    decreases |names|
    ensures r.Defined? ==> forall k :: k in m ==> k in r.value && r.value[k] == m[k]
    ensures r.Defined? ==> forall k :: k in r.value && k !in m ==> r.value[k] in args
  {
    if names == [] then Defined(m)
    else if |m| >= |args| then Undefined
    else
      var next := if names[0] in m then m else m[names[0] := args[|m|]];
      BindFrom(names[1..], args, next)
  }

  /** The scope `setArguments(args)` builds from the parameter text. */
  function Bindings(vars: string, args: seq<Slot>): Outcome<map<string, Slot>>
  {
    BindFrom(SplitSpec(vars, ','), args, map[])
  }

  predicate Distinct(names: seq<string>)
  {
    forall i, j :: 0 <= i < j < |names| ==> names[i] != names[j]
  }

  /** Distinct names, none bound yet, with enough arguments left: the i-th
      name is bound to the argument after the |m| already used. */
  lemma {:induction false} BindFromDistinct(names: seq<string>, args: seq<Slot>, m: map<string, Slot>)
    requires Distinct(names)
    requires forall i :: 0 <= i < |names| ==> names[i] !in m
    requires |m| + |names| <= |args|
    ensures BindFrom(names, args, m).Defined?
    ensures forall i :: 0 <= i < |names| ==>
      names[i] in BindFrom(names, args, m).value &&
      BindFrom(names, args, m).value[names[i]] == args[|m| + i]
    decreases |names|
  {
    if names != [] {
      var next := m[names[0] := args[|m|]];
      assert |next| == |m| + 1;
      forall i | 0 <= i < |names| - 1
        ensures names[1..][i] !in next
      {
        assert names[1..][i] == names[i + 1] != names[0];
      }
      BindFromDistinct(names[1..], args, next);
      forall i | 0 <= i < |names|
        ensures names[i] in BindFrom(names, args, m).value
        ensures BindFrom(names, args, m).value[names[i]] == args[|m| + i]
      {
        if i > 0 {
          assert names[i] == names[1..][i - 1];
        }
      }
    }
  }

  /** Distinct names and fewer arguments than names: some name reads past
      the last argument. */
  lemma {:induction false} BindFromTooFew(names: seq<string>, args: seq<Slot>, m: map<string, Slot>)
    requires Distinct(names)
    requires forall i :: 0 <= i < |names| ==> names[i] !in m
    requires |m| <= |args| < |m| + |names|
    ensures BindFrom(names, args, m).Undefined?
    decreases |names|
  {
    if |m| < |args| {
      var next := m[names[0] := args[|m|]];
      assert |next| == |m| + 1;
      forall i | 0 <= i < |names| - 1
        ensures names[1..][i] !in next
      {
        assert names[1..][i] == names[i + 1] != names[0];
      }
      BindFromTooFew(names[1..], args, next);
    }
  }

  /** With distinct parameter names, `setArguments` is defined exactly when
      there are at least as many arguments as parameters, and then binds the
      i-th parameter to the i-th argument. */
  lemma BindingsOfDistinct(vars: string, args: seq<Slot>)
    requires Distinct(SplitSpec(vars, ','))
    ensures Bindings(vars, args).Defined? <==> |SplitSpec(vars, ',')| <= |args|
    ensures Bindings(vars, args).Defined? ==>
      var names := SplitSpec(vars, ',');
      forall i :: 0 <= i < |names| ==>
        names[i] in Bindings(vars, args).value && Bindings(vars, args).value[names[i]] == args[i]
  {
    var names := SplitSpec(vars, ',');
    if |names| <= |args| {
      BindFromDistinct(names, args, map[]);
    } else {
      BindFromTooFew(names, args, map[]);
    }
  }

  // ---------------------------------------------------------------------
  // The routine
  // ---------------------------------------------------------------------

  /** Slot s, pushed at base + k for the k-th of the definitions defs of
      object variable, holds a copy of that definition, and it is the first
      one whose key "variable.name" is key (`std::map::insert` keeps the
      first). */
  predicate FirstDefinition(exprs: seq<Expr>, base: nat, variable: string, defs: seq<FunctionDef>, key: string, s: Slot)
  {
    && base <= s < |exprs| && s - base < |defs|
    && key == variable + "." + defs[s - base].name
    && exprs[s] == Routine(defs[s - base].name, defs[s - base].vars, defs[s - base].code, [])
    && forall k :: 0 <= k < s - base ==> variable + "." + defs[k].name != key
  }

  /** The first of defs named name: the one whose key `std::map::insert`
      keeps. */
  function FirstNamed(defs: seq<FunctionDef>, name: string): (r: Option<FunctionDef>)
    ensures r.Some? ==> r.value in defs && r.value.name == name
    ensures r.None? ==> forall d :: d in defs ==> d.name != name
  {
    if |defs| == 0 then None
    else if defs[0].name == name then Some(defs[0])
    else FirstNamed(defs[1..], name)
  }

  /** The definition at k is the first named name when none before it is. */
  lemma {:induction false} FirstNamedAt(defs: seq<FunctionDef>, name: string, k: nat)
    requires k < |defs| && defs[k].name == name
    requires forall j :: 0 <= j < k ==> defs[j].name != name
    ensures FirstNamed(defs, name) == Some(defs[k])
  {
    if k > 0 {
      FirstNamedAt(defs[1..], name, k - 1);
    }
  }

  /** Once every definition's key is entered, so is the key of the first
      one named name. */
  lemma FirstNamedKeyed(variable: string, defs: seq<FunctionDef>, name: string, keys: map<string, Slot>)
    requires forall k :: 0 <= k < |defs| ==> variable + "." + defs[k].name in keys
    ensures FirstNamed(defs, name).Some? ==> variable + "." + name in keys
  {
    if FirstNamed(defs, name).Some? {
      var j :| 0 <= j < |defs| && defs[j] == FirstNamed(defs, name).value;
      assert variable + "." + defs[j].name in keys;
    }
  }

  /** The slot entered for "object.name" holds the first definition named
      name. */
  lemma FirstDefinitionNamed(exprs: seq<Expr>, base: nat, variable: string, defs: seq<FunctionDef>, name: string,
                             s: Slot)
    requires FirstDefinition(exprs, base, variable, defs, variable + "." + name, s)
    ensures FirstNamed(defs, name).Some?
    ensures exprs[s] == Routine(name, FirstNamed(defs, name).value.vars, FirstNamed(defs, name).value.code, [])
  {
    var k := s - base;
    KeyName(variable, defs[k].name, name);
    forall j | 0 <= j < k
      ensures defs[j].name != name
    {
      assert variable + "." + defs[j].name != variable + "." + name;
    }
    FirstNamedAt(defs, name, k);
  }

  /** Keys "object.name" of one object are equal only for equal names. */
  lemma KeyName(variable: string, name: string, other: string)
    requires variable + "." + name == variable + "." + other
    ensures name == other
  {
    assert name == (variable + "." + name)[|variable| + 1..];
    assert other == (variable + "." + other)[|variable| + 1..];
  }

  /** The definition at i, pushed at base + i, is the first of its name
      when no earlier definition's key was entered under it. */
  lemma FirstDefinitionAdded(exprs: seq<Expr>, base: nat, variable: string, defs: seq<FunctionDef>, i: nat,
                             keys: map<string, Slot>)
    requires i < |defs| && |exprs| == base + i + 1
    requires exprs[base + i] == Routine(defs[i].name, defs[i].vars, defs[i].code, [])
    requires forall k :: 0 <= k < i ==> variable + "." + defs[k].name in keys
    requires variable + "." + defs[i].name !in keys
    ensures FirstDefinition(exprs, base, variable, defs, variable + "." + defs[i].name, base + i)
  {
  }

  /** Pushing further slots keeps a definition's copy. */
  lemma FirstDefinitionKept(before: seq<Expr>, after: seq<Expr>, base: nat, variable: string, defs: seq<FunctionDef>,
                            key: string, s: Slot)
    requires FirstDefinition(before, base, variable, defs, key, s)
    requires |after| >= |before| && after[..|before|] == before
    ensures FirstDefinition(after, base, variable, defs, key, s)
  {
    assert after[s] == before[s];
  }

  /** One step of `addFunctions`: the definition at i, pushed at base + i,
      is entered under its key unless an earlier one was. */
  lemma RoutineEntered(before: seq<Expr>, after: seq<Expr>, base: nat, variable: string, defs: seq<FunctionDef>, i: nat,
                       orig: map<string, Slot>, keys: map<string, Slot>)
    requires i < |defs| && |before| == base + i
    requires after == before + [Routine(defs[i].name, defs[i].vars, defs[i].code, [])]
    requires forall f :: f in orig ==> f in keys && keys[f] == orig[f]
    requires forall f :: f in keys && f !in orig ==> FirstDefinition(before, base, variable, defs, f, keys[f]) && keys[f] < base + i
    requires forall k :: 0 <= k < i ==> variable + "." + defs[k].name in keys
    ensures var key := variable + "." + defs[i].name;
      var keys' := if key in keys then keys else keys[key := base + i];
      && (forall f :: f in orig ==> f in keys' && keys'[f] == orig[f])
      && (forall f :: f in keys' && f !in orig ==>
            FirstDefinition(after, base, variable, defs, f, keys'[f]) && keys'[f] < base + i + 1)
      && (forall k :: 0 <= k <= i ==> variable + "." + defs[k].name in keys')
  {
    var key := variable + "." + defs[i].name;
    forall f | f in keys && f !in orig
      ensures FirstDefinition(after, base, variable, defs, f, keys[f])
    {
      FirstDefinitionKept(before, after, base, variable, defs, f, keys[f]);
    }
    if key !in keys {
      FirstDefinitionAdded(after, base, variable, defs, i, keys);
    }
  }

  class Function {
    const name: string
    const vars: string
    const code: string
    /** `_varMap`: the variables of the scope and the slots they name. */
    var varMap: map<string, Slot>
    /** `_fnMap`: "object.routine" to the slot of its definition. */
    var fnMap: map<string, Slot>
    /** `_stack`: the parsed statements, in order. */
    var stack: seq<Slot>

    /** Every slot the routine holds is a slot of the pool, and its
        variables hold strings. */
    predicate Valid(pool: ExpressionPool)
      reads this, pool
    {
      && pool.Valid()
      && LeafScope(pool.exprs, varMap, pool.nothing)
      && (forall f :: f in fnMap ==> fnMap[f] < |pool.exprs|)
      && (forall k :: 0 <= k < |stack| ==> stack[k] < |pool.exprs|)
    }

    /** `Function(name, vars, code)`: an empty scope and no statements. */
    constructor (name: string, vars: string, code: string)
      ensures this.name == name && this.vars == vars && this.code == code
      ensures varMap == map[] && fnMap == map[] && stack == []
    {
      this.name := name;
      this.vars := vars;
      this.code := code;
      varMap := map[];
      fnMap := map[];
      stack := [];
    }

    /** `setArguments`: clears the scope, then binds the parameters in
        order; Undefined when a parameter reads past the arguments. */
    method SetArguments(args: seq<Slot>) returns (r: Outcome<()>)
      modifies this
      ensures r.Defined? <==> Bindings(vars, args).Defined?
      ensures r.Defined? ==> varMap == Bindings(vars, args).value
      ensures fnMap == old(fnMap) && stack == old(stack)
    {
      varMap := map[];
      var names := Split(vars, ',');
      var i := 0;
      while i < |names|
        invariant 0 <= i <= |names|
        invariant BindFrom(names[i..], args, varMap) == Bindings(vars, args)
        invariant fnMap == old(fnMap) && stack == old(stack)
      {
        assert names[i..][0] == names[i] && names[i..][1..] == names[i + 1..];
        if |varMap| >= |args| {
          assert BindFrom(names[i..], args, varMap).Undefined?;
          return Undefined;
        }
        var slot := args[|varMap|];
        if names[i] !in varMap {
          varMap := varMap[names[i] := slot];
        }
        i := i + 1;
      }
      assert names[i..] == [];
      r := Defined(());
    }

    /** `parseMethodCall`: a method of the strings library applied to the
        slot inst. `split` and `join` give inst back; `reverse` and
        `splice` store their result in inst; `length` measures it; any
        other method is the shared `Nothing`. */
    method ParseMethodCall(pool: ExpressionPool, inst: Slot, methodName: string, args: string, fuel: nat)
      returns (r: Outcome<Slot>)
      requires Valid(pool) && inst < |pool.exprs|
      modifies this, pool
      decreases fuel, |args|, 7
      ensures Valid(pool) && |pool.exprs| >= old(|pool.exprs|)
      ensures old(pool.nothing).Some? ==> pool.nothing == old(pool.nothing)
      ensures varMap == old(varMap) && stack == old(stack)
      ensures forall f :: f in old(fnMap) ==> f in fnMap && fnMap[f] == old(fnMap)[f]
      ensures Grows(old(pool.exprs), pool.exprs, varMap.Values + {inst}, old(pool.nothing), pool.nothing)
      ensures r.Defined? ==> InRegion(r.value, old(|pool.exprs|), varMap.Values + {inst}, pool.nothing)
      ensures r.Defined? ==> MethodResult(pool.exprs, pool.nothing, varMap, inst, methodName, args, r.value)
      ensures methodName == "split" || methodName == "join" ==>
        r == Defined(inst) && pool.exprs == old(pool.exprs)
      ensures methodName == "reverse" ==>
        var n := |old(pool.exprs)|;
        r == Defined(n + 1) && pool.exprs == old(pool.exprs) + [Reverse(inst)] + [Assign(n, inst)]
      ensures methodName == "length" ==>
        r == Defined(|old(pool.exprs)|) && pool.exprs == old(pool.exprs) + [Length(inst)]
      ensures methodName == "splice" && SpliceCounts(old(pool.exprs), varMap, SplitSpec(args, ',')).Some? ==>
        r.Defined?
      ensures !KnownMethod(methodName) ==>
        r.Defined? && pool.nothing == Some(r.value) &&
        (old(pool.nothing).Some? ==> r.value == old(pool.nothing).value && pool.exprs == old(pool.exprs))
    {
      ghost var named := varMap.Values + {inst};
      GrowsRefl(pool.exprs, named, pool.nothing);
      if methodName == "split" || methodName == "join" {
        r := Defined(inst);
      } else if methodName == "reverse" {
        Pushed(old(pool.exprs), pool.exprs, Reverse(inst), varMap, named, pool.nothing, pool.nothing);
        var rev := pool.Push(Reverse(inst));
        Pushed(old(pool.exprs), pool.exprs, Assign(rev, inst), varMap, named, pool.nothing, pool.nothing);
        var assign := pool.Push(Assign(rev, inst));
        r := Defined(assign);
      } else if methodName == "length" {
        Pushed(old(pool.exprs), pool.exprs, Length(inst), varMap, named, pool.nothing, pool.nothing);
        var len := pool.Push(Length(inst));
        r := Defined(len);
      } else if methodName == "splice" {
        r := ParseSplice(pool, inst, args, fuel);
      } else {
        var n := pool.GetNothing();
        NothingGrows(old(pool.exprs), old(pool.exprs), pool.exprs, named, old(pool.nothing), old(pool.nothing), pool.nothing);
        r := Defined(n);
      }
    }

    /** `splice`'s arguments: the first two are parsed in this scope with
        no script and evaluated at once (so the start and the delete count
        are fixed when the statement is parsed); the others are kept as raw
        texts. The splice stores its result in inst. */
    method ParseSplice(pool: ExpressionPool, inst: Slot, args: string, fuel: nat) returns (r: Outcome<Slot>)
      requires Valid(pool) && inst < |pool.exprs|
      modifies this, pool
      decreases fuel, |args|, 6
      ensures Valid(pool) && |pool.exprs| >= old(|pool.exprs|)
      ensures old(pool.nothing).Some? ==> pool.nothing == old(pool.nothing)
      ensures varMap == old(varMap) && stack == old(stack)
      ensures forall f :: f in old(fnMap) ==> f in fnMap && fnMap[f] == old(fnMap)[f]
      ensures Grows(old(pool.exprs), pool.exprs, varMap.Values + {inst}, old(pool.nothing), pool.nothing)
      ensures r.Defined? ==> old(|pool.exprs|) <= r.value
      ensures r.Defined? ==> MethodResult(pool.exprs, pool.nothing, varMap, inst, "splice", args, r.value)
      ensures SpliceCounts(old(pool.exprs), varMap, SplitSpec(args, ',')).Some? ==>
        && r.Defined?
        && (pool.exprs[r.value - 1].start, pool.exprs[r.value - 1].deleteCnt)
             == SpliceCounts(old(pool.exprs), varMap, SplitSpec(args, ',')).value
    {
      ghost var named := varMap.Values + {inst};
      var parsed := ParseSpliceArgs(pool, args, fuel);
      GrowsWiden(old(pool.exprs), pool.exprs, varMap.Values, named, old(pool.nothing), pool.nothing);
      if parsed.Undefined? {
        return Undefined;
      }
      var (start, deleteCnt, items) := parsed.value;
      ghost var mid := pool.exprs;
      var splice := pool.Push(Splice(inst, start, deleteCnt, items));
      var assign := pool.Push(Assign(splice, inst));
      SplicePushed(old(pool.exprs), mid, old(pool.nothing), pool.nothing, varMap, inst, start, deleteCnt, args);
      r := Defined(assign);
    }

    /** The loop over `splice`'s comma-separated arguments: the first two
        become the start and the delete count, the rest the items. */
    method ParseSpliceArgs(pool: ExpressionPool, args: string, fuel: nat) returns (r: Outcome<(nat, nat, seq<string>)>)
      requires Valid(pool)
      modifies this, pool
      decreases fuel, |args|, 5
      ensures Valid(pool) && |pool.exprs| >= old(|pool.exprs|)
      ensures old(pool.nothing).Some? ==> pool.nothing == old(pool.nothing)
      ensures varMap == old(varMap) && stack == old(stack)
      ensures forall f :: f in old(fnMap) ==> f in fnMap && fnMap[f] == old(fnMap)[f]
      ensures Grows(old(pool.exprs), pool.exprs, varMap.Values, old(pool.nothing), pool.nothing)
      ensures r.Defined? ==> r.value.2 == SpliceItems(args)
      ensures SpliceCounts(old(pool.exprs), varMap, SplitSpec(args, ',')).Some? ==>
        r.Defined? && (r.value.0, r.value.1) == SpliceCounts(old(pool.exprs), varMap, SplitSpec(args, ',')).value
    {
      var pieces := Split(args, ',');
      SplitShorter(args, ',');
      var start, deleteCnt := 0, 0;
      var items: seq<string> := [];
      ghost var afterStart := pool.exprs;
      GrowsRefl(pool.exprs, varMap.Values, pool.nothing);
      var idx := 0;
      while idx < |pieces|
        invariant 0 <= idx <= |pieces|
        invariant Valid(pool) && |pool.exprs| >= old(|pool.exprs|)
        invariant old(pool.nothing).Some? ==> pool.nothing == old(pool.nothing)
        invariant varMap == old(varMap) && stack == old(stack)
        invariant forall f :: f in old(fnMap) ==> f in fnMap && fnMap[f] == old(fnMap)[f]
        invariant Grows(old(pool.exprs), pool.exprs, varMap.Values, old(pool.nothing), pool.nothing)
        invariant items == (if idx <= 2 then [] else pieces[2..idx])
        invariant idx == 0 ==> start == 0 && pool.exprs == old(pool.exprs)
        invariant idx <= 1 ==> deleteCnt == 0
        invariant idx == 1 ==> pool.exprs == afterStart
        invariant idx >= 1 && CountValue(old(pool.exprs), varMap, pieces[0]).Some? ==>
          (start, afterStart) == CountValue(old(pool.exprs), varMap, pieces[0]).value
        invariant idx >= 2 && CountValue(old(pool.exprs), varMap, pieces[0]).Some? && CountValue(afterStart, varMap, pieces[1]).Some? ==>
          deleteCnt == CountValue(afterStart, varMap, pieces[1]).value.0
      {
        if idx < 2 {
          ghost var before := pool.exprs;
          ghost var nothingBefore := pool.nothing;
          var count := ParseCount(pool, pieces[idx], fuel);
          GrowsTrans(old(pool.exprs), before, pool.exprs, varMap.Values, old(pool.nothing), nothingBefore, pool.nothing);
          if count.Undefined? {
            assert SpliceCounts(old(pool.exprs), varMap, pieces).None?;
            return Undefined;
          }
          if idx == 0 {
            start := count.value;
            afterStart := pool.exprs;
          } else {
            deleteCnt := count.value;
          }
        } else {
          SliceExtends(pieces, 2, idx);
          items := items + [pieces[idx]];
        }
        idx := idx + 1;
      }
      r := Defined((start, deleteCnt, items));
      SpliceCountsOf(old(pool.exprs), varMap, pieces, afterStart, start, deleteCnt);
    }

    /** A start or delete-count argument of `splice`: parsed in this scope
        with no script, evaluated at once, and read with strtoull. */
    method ParseCount(pool: ExpressionPool, t: string, fuel: nat) returns (r: Outcome<nat>)
      requires Valid(pool)
      modifies this, pool
      decreases fuel, |t|, 4
      ensures Valid(pool) && |pool.exprs| >= old(|pool.exprs|)
      ensures old(pool.nothing).Some? ==> pool.nothing == old(pool.nothing)
      ensures varMap == old(varMap) && stack == old(stack)
      ensures forall f :: f in old(fnMap) ==> f in fnMap && fnMap[f] == old(fnMap)[f]
      ensures Grows(old(pool.exprs), pool.exprs, varMap.Values, old(pool.nothing), pool.nothing)
      ensures CountValue(old(pool.exprs), varMap, t).Some? ==>
        r.Defined? && (r.value, pool.exprs) == CountValue(old(pool.exprs), varMap, t).value
    {
      var arg := ParseCode(pool, t, "", fuel);
      if arg.Defined? && t !in varMap && AllDigits(t) {
        assert Eval(pool.exprs, arg.value) == Defined((t, pool.exprs));
      }
      if arg.Undefined? || Eval(pool.exprs, arg.value).Undefined? {
        return Undefined;
      }
      ghost var parsed := pool.exprs;
      GrowsThroughEval(old(pool.exprs), parsed, varMap, old(pool.nothing), pool.nothing, arg.value);
      var text := pool.Interpret(arg.value);
      CountValueOfParsed(old(pool.exprs), parsed, varMap, t, arg.value, text, pool.exprs);
      r := Defined(StrToULL(text));
    }

    /** `parseCode(toParse, jsCode)` as the statement loop and the operand
        parsers see it: a slot of the pool, the scope kept. */
    method ParseCode(pool: ExpressionPool, t: string, jsCode: string, fuel: nat) returns (r: Outcome<Slot>)
      requires Valid(pool)
      modifies this, pool
      decreases fuel, |t|, 3
      ensures Valid(pool) && |pool.exprs| >= old(|pool.exprs|)
      ensures old(pool.nothing).Some? ==> pool.nothing == old(pool.nothing)
      ensures varMap == old(varMap) && stack == old(stack)
      ensures forall f :: f in old(fnMap) ==> f in fnMap && fnMap[f] == old(fnMap)[f]
      ensures Grows(old(pool.exprs), pool.exprs, varMap.Values, old(pool.nothing), pool.nothing)
      ensures r.Defined? ==> InRegion(r.value, old(|pool.exprs|), varMap.Values, pool.nothing)
      ensures r.Defined? ==> Parsed(pool.exprs, pool.nothing, varMap, t, r.value)
      ensures Total(varMap, t) ==> r.Defined?
      ensures Classify(varMap.Keys, t).LocalVar? ==> r == Defined(varMap[t]) && pool.exprs == old(pool.exprs)
      ensures Classify(varMap.Keys, t).IntegerLiteral? ==>
        r == Defined(|old(pool.exprs)|) && pool.exprs == old(pool.exprs) + [Str(t)]
    {
      r := ParseStatement(pool, t, jsCode, fuel);
    }

    /** The operands of a statement, parsed with `parseCode` one after the
        other, left to right; each is shorter than the statement of length n. */
    method ParseOperands(pool: ExpressionPool, texts: seq<string>, jsCode: string, fuel: nat, ghost n: nat)
      returns (r: Outcome<seq<Slot>>)
      requires Valid(pool)
      requires forall k :: 0 <= k < |texts| ==> |texts[k]| < n
      modifies this, pool
      decreases fuel, n, 0
      ensures Valid(pool) && |pool.exprs| >= old(|pool.exprs|)
      ensures old(pool.nothing).Some? ==> pool.nothing == old(pool.nothing)
      ensures varMap == old(varMap) && stack == old(stack)
      ensures forall f :: f in old(fnMap) ==> f in fnMap && fnMap[f] == old(fnMap)[f]
      ensures Grows(old(pool.exprs), pool.exprs, varMap.Values, old(pool.nothing), pool.nothing)
      ensures r.Defined? ==> |r.value| == |texts| && forall k :: 0 <= k < |texts| ==>
        r.value[k] < |pool.exprs| && InRegion(r.value[k], old(|pool.exprs|), varMap.Values, pool.nothing)
      ensures r.Defined? ==> AllParsed(pool.exprs, pool.nothing, varMap, texts, r.value)
      ensures (forall k :: 0 <= k < |texts| ==> Total(varMap, texts[k])) ==> r.Defined?
    {
      var slots: seq<Slot> := [];
      GrowsRefl(pool.exprs, varMap.Values, pool.nothing);
      var k := 0;
      while k < |texts|
        invariant 0 <= k <= |texts| && |slots| == k
        invariant Valid(pool) && |pool.exprs| >= old(|pool.exprs|)
        invariant old(pool.nothing).Some? ==> pool.nothing == old(pool.nothing)
        invariant varMap == old(varMap) && stack == old(stack)
        invariant forall f :: f in old(fnMap) ==> f in fnMap && fnMap[f] == old(fnMap)[f]
        invariant Grows(old(pool.exprs), pool.exprs, varMap.Values, old(pool.nothing), pool.nothing)
        invariant forall j :: 0 <= j < k ==>
          slots[j] < |pool.exprs| && InRegion(slots[j], old(|pool.exprs|), varMap.Values, pool.nothing)
        invariant AllParsed(pool.exprs, pool.nothing, varMap, texts, slots)
      {
        ghost var before := pool.exprs;
        ghost var nothingBefore := pool.nothing;
        var slot := ParseCode(pool, texts[k], jsCode, fuel);
        GrowsTrans(old(pool.exprs), before, pool.exprs, varMap.Values, old(pool.nothing), nothingBefore, pool.nothing);
        if slot.Undefined? {
          return Undefined;
        }
        AllParsedGrows(before, pool.exprs, nothingBefore, pool.nothing, varMap, texts, slots, slot.value);
        slots := slots + [slot.value];
        k := k + 1;
      }
      r := Defined(slots);
    }

    /** The statements built from their operands: `a[i]=b`, `a=b`, `a[i]`
        and `a%b`. The operands are parsed left to right as they appear in
        the constructor call (source, target, index for an indexed
        assignment; source, target for an assignment). */
    method ParseCompound(pool: ExpressionPool, rule: Rule, jsCode: string, fuel: nat, ghost t: string)
      returns (r: Outcome<Slot>)
      requires Valid(pool)
      requires rule == Classify(varMap.Keys, t)
      requires rule.AssignIndexed? || rule.AssignAny? || rule.Indexed? || rule.Modulo?
      modifies this, pool
      decreases fuel, |t|, 1
      ensures Valid(pool) && |pool.exprs| >= old(|pool.exprs|)
      ensures old(pool.nothing).Some? ==> pool.nothing == old(pool.nothing)
      ensures varMap == old(varMap) && stack == old(stack)
      ensures forall f :: f in old(fnMap) ==> f in fnMap && fnMap[f] == old(fnMap)[f]
      ensures Grows(old(pool.exprs), pool.exprs, varMap.Values, old(pool.nothing), pool.nothing)
      ensures r.Defined? ==> old(|pool.exprs|) <= r.value
      ensures r.Defined? ==> Parsed(pool.exprs, pool.nothing, varMap, t, r.value)
      ensures Total(varMap, t) ==> r.Defined?
    {
      TotalOperands(varMap, t);
      var ops := ParseOperands(pool, Operands(rule), jsCode, fuel, |t|);
      if ops.Undefined? {
        return Undefined;
      }
      CompoundPushed(old(pool.exprs), pool.exprs, old(pool.nothing), pool.nothing, varMap, t, ops.value);
      var s := pool.Push(Compound(rule, ops.value));
      r := Defined(s);
    }

    /** `variable = instance.method(args)`: the method applied to the
        instance, assigned to the variable; either name missing from the
        scope gives the shared `Nothing`. */
    method ParseAssignMethod(pool: ExpressionPool, variable: string, instance: string, methodName: string,
                             args: string, fuel: nat)
      returns (r: Outcome<Slot>)
      requires Valid(pool)
      modifies this, pool
      decreases fuel, |args|, 8
      ensures Valid(pool) && |pool.exprs| >= old(|pool.exprs|)
      ensures old(pool.nothing).Some? ==> pool.nothing == old(pool.nothing)
      ensures varMap == old(varMap) && stack == old(stack)
      ensures forall f :: f in old(fnMap) ==> f in fnMap && fnMap[f] == old(fnMap)[f]
      ensures Grows(old(pool.exprs), pool.exprs, varMap.Values, old(pool.nothing), pool.nothing)
      ensures r.Defined? ==> r.value < |pool.exprs| && InRegion(r.value, old(|pool.exprs|), varMap.Values, pool.nothing)
      ensures variable in varMap && instance in varMap && r.Defined? ==>
        && pool.exprs[r.value].Assign? && pool.exprs[r.value].target == varMap[variable]
        && Own(pool.nothing, varMap, r.value)
        && MethodResult(pool.exprs, pool.nothing, varMap, varMap[instance], methodName, args, pool.exprs[r.value].source)
      ensures variable in varMap && instance in varMap ==>
        (methodName == "splice" ==> SpliceCounts(old(pool.exprs), varMap, SplitSpec(args, ',')).Some?) ==>
        r.Defined?
      ensures variable !in varMap || instance !in varMap ==>
        r.Defined? && pool.nothing == Some(r.value) &&
        (old(pool.nothing).Some? ==> r.value == old(pool.nothing).value && pool.exprs == old(pool.exprs))
    {
      GrowsRefl(pool.exprs, varMap.Values, pool.nothing);
      if variable !in varMap || instance !in varMap {
        var n := pool.GetNothing();
        NothingGrows(old(pool.exprs), old(pool.exprs), pool.exprs, varMap.Values, old(pool.nothing), old(pool.nothing), pool.nothing);
        r := Defined(n);
      } else {
        var target := varMap[variable];
        var inst := varMap[instance];
        assert varMap.Values + {inst} == varMap.Values;
        var from := ParseMethodCall(pool, inst, methodName, args, fuel);
        if from.Defined? {
          ghost var mid := pool.exprs;
          var e := Assign(from.value, target);
          Pushed(old(pool.exprs), mid, e, varMap, varMap.Values, old(pool.nothing), pool.nothing);
          MethodResultKept(mid, mid + [e], pool.nothing, pool.nothing, varMap, inst, methodName, args, from.value);
          var s := pool.Push(e);
          r := Defined(s);
        } else {
          r := Undefined;
        }
      }
    }

    /** `parseCode(toParse, jsCode)`: one statement, classified by
        `Classify` and turned into expressions of the pool; its operands are
        parsed first, left to right. Unknown variables, routines and
        methods give the shared `Nothing`. */
    method ParseStatement(pool: ExpressionPool, t: string, jsCode: string, fuel: nat) returns (r: Outcome<Slot>)
      requires Valid(pool)
      modifies this, pool
      decreases fuel, |t|, 2
      ensures Valid(pool) && |pool.exprs| >= old(|pool.exprs|)
      ensures old(pool.nothing).Some? ==> pool.nothing == old(pool.nothing)
      ensures varMap == old(varMap) && stack == old(stack)
      ensures forall f :: f in old(fnMap) ==> f in fnMap && fnMap[f] == old(fnMap)[f]
      ensures Grows(old(pool.exprs), pool.exprs, varMap.Values, old(pool.nothing), pool.nothing)
      ensures r.Defined? ==> InRegion(r.value, old(|pool.exprs|), varMap.Values, pool.nothing)
      ensures r.Defined? ==> Parsed(pool.exprs, pool.nothing, varMap, t, r.value)
      ensures Total(varMap, t) ==> r.Defined?
      ensures var rule := Classify(old(varMap).Keys, t);
        && (rule.LocalVar? ==> r == Defined(old(varMap)[t]) && pool.exprs == old(pool.exprs))
        && (rule.IntegerLiteral? ==>
              r == Defined(|old(pool.exprs)|) && pool.exprs == old(pool.exprs) + [Str(t)])
        && (rule.MethodCall? && rule.variable !in old(varMap) &&
            rule.variable + "." + rule.methodName !in old(fnMap) &&
            VarDefinition(jsCode, rule.variable).None? ==>
              r.Defined? && pool.nothing == Some(r.value))
        && ((rule.Unrecognized? ||
             (rule.AssignMethod? && (rule.variable !in old(varMap) || rule.instance !in old(varMap))) ||
             (rule.InstanceProperty? && rule.variable !in old(varMap))) ==>
              r.Defined? && pool.nothing == Some(r.value) &&
              (old(pool.nothing).Some? ==> r.value == old(pool.nothing).value && pool.exprs == old(pool.exprs)))
    {
      var rule := Classify(varMap.Keys, t);
      if rule.AssignMethod? {
        r := ParseAssignStatement(pool, t, fuel);
      } else if rule.AssignIndexed? || rule.AssignAny? || rule.Indexed? || rule.Modulo? {
        r := ParseCompound(pool, rule, jsCode, fuel, t);
      } else if rule.MethodCall? || rule.InstanceProperty? {
        r := ParseCallStatement(pool, t, jsCode, fuel);
      } else {
        r := ParseSimpleStatement(pool, t);
      }
    }

    /** The statements of `parseCode` without operands: a variable of the
        scope is its slot, an integer literal a pushed string, and a text
        no pattern recognises the shared `Nothing`. */
    method ParseSimpleStatement(pool: ExpressionPool, t: string) returns (r: Outcome<Slot>)
      requires Valid(pool)
      requires var rule := Classify(varMap.Keys, t);
        rule.LocalVar? || rule.IntegerLiteral? || rule.DefineFromIndexed? || rule.Unrecognized?
      modifies pool
      ensures Valid(pool) && |pool.exprs| >= old(|pool.exprs|)
      ensures old(pool.nothing).Some? ==> pool.nothing == old(pool.nothing)
      ensures Grows(old(pool.exprs), pool.exprs, varMap.Values, old(pool.nothing), pool.nothing)
      ensures r.Defined? && InRegion(r.value, old(|pool.exprs|), varMap.Values, pool.nothing)
      ensures Parsed(pool.exprs, pool.nothing, varMap, t, r.value)
      ensures var rule := Classify(varMap.Keys, t);
        && (rule.LocalVar? ==> r == Defined(varMap[t]) && pool.exprs == old(pool.exprs))
        && (rule.IntegerLiteral? ==>
              r == Defined(|old(pool.exprs)|) && pool.exprs == old(pool.exprs) + [Str(t)])
        && (rule.Unrecognized? ==>
              pool.nothing == Some(r.value) &&
              (old(pool.nothing).Some? ==> r.value == old(pool.nothing).value && pool.exprs == old(pool.exprs)))
    {
      var rule := Classify(varMap.Keys, t);
      GrowsRefl(pool.exprs, varMap.Values, pool.nothing);
      match rule
      case LocalVar =>
        r := Defined(varMap[t]);
      case IntegerLiteral =>
        Pushed(old(pool.exprs), pool.exprs, Str(t), varMap, varMap.Values, pool.nothing, pool.nothing);
        var s := pool.Push(Str(t));
        r := Defined(s);
      case DefineFromIndexed(_, _, _) =>
        NeverDefineFromIndexed(varMap.Keys, t);
        assert false;
      case Unrecognized =>
        var n := pool.GetNothing();
        NothingGrows(old(pool.exprs), old(pool.exprs), pool.exprs, varMap.Values, old(pool.nothing), old(pool.nothing), pool.nothing);
        r := Defined(n);
    }

    /** The statement `variable = instance.method(args)` of `parseCode`. */
    method ParseAssignStatement(pool: ExpressionPool, t: string, fuel: nat) returns (r: Outcome<Slot>)
      requires Valid(pool) && Classify(varMap.Keys, t).AssignMethod?
      modifies this, pool
      decreases fuel, |t|, 1
      ensures Valid(pool) && |pool.exprs| >= old(|pool.exprs|)
      ensures old(pool.nothing).Some? ==> pool.nothing == old(pool.nothing)
      ensures varMap == old(varMap) && stack == old(stack)
      ensures forall f :: f in old(fnMap) ==> f in fnMap && fnMap[f] == old(fnMap)[f]
      ensures Grows(old(pool.exprs), pool.exprs, varMap.Values, old(pool.nothing), pool.nothing)
      ensures r.Defined? ==> InRegion(r.value, old(|pool.exprs|), varMap.Values, pool.nothing)
      ensures r.Defined? ==> Parsed(pool.exprs, pool.nothing, varMap, t, r.value)
      ensures Total(varMap, t) ==> r.Defined?
      ensures var rule := Classify(old(varMap).Keys, t);
        rule.variable !in old(varMap) || rule.instance !in old(varMap) ==>
          r.Defined? && pool.nothing == Some(r.value) &&
          (old(pool.nothing).Some? ==> r.value == old(pool.nothing).value && pool.exprs == old(pool.exprs))
    {
      var rule := Classify(varMap.Keys, t);
      LiteralCountsDefined(pool.exprs, varMap, rule.args);
      r := ParseAssignMethod(pool, rule.variable, rule.instance, rule.methodName, rule.args, fuel);
    }

    /** The statements `object.method(args)` and `object.property` of
        `parseCode`: a method of the strings library on a variable of the
        scope (a property reads like a method without arguments), a routine
        of the script on any other object, and the shared `Nothing` for a
        property of an object that is not a variable. */
    method ParseCallStatement(pool: ExpressionPool, t: string, jsCode: string, fuel: nat) returns (r: Outcome<Slot>)
      requires Valid(pool)
      requires Classify(varMap.Keys, t).MethodCall? || Classify(varMap.Keys, t).InstanceProperty?
      modifies this, pool
      decreases fuel, |t|, 1
      ensures Valid(pool) && |pool.exprs| >= old(|pool.exprs|)
      ensures old(pool.nothing).Some? ==> pool.nothing == old(pool.nothing)
      ensures varMap == old(varMap) && stack == old(stack)
      ensures forall f :: f in old(fnMap) ==> f in fnMap && fnMap[f] == old(fnMap)[f]
      ensures Grows(old(pool.exprs), pool.exprs, varMap.Values, old(pool.nothing), pool.nothing)
      ensures r.Defined? ==> InRegion(r.value, old(|pool.exprs|), varMap.Values, pool.nothing)
      ensures r.Defined? ==> Parsed(pool.exprs, pool.nothing, varMap, t, r.value)
      ensures Total(varMap, t) ==> r.Defined?
      ensures var rule := Classify(old(varMap).Keys, t);
        && (rule.MethodCall? && rule.variable !in old(varMap) &&
            rule.variable + "." + rule.methodName !in old(fnMap) &&
            VarDefinition(jsCode, rule.variable).None? ==>
              r.Defined? && pool.nothing == Some(r.value))
        && (rule.InstanceProperty? && rule.variable !in old(varMap) ==>
              r.Defined? && pool.nothing == Some(r.value) &&
              (old(pool.nothing).Some? ==> r.value == old(pool.nothing).value && pool.exprs == old(pool.exprs)))
    {
      var rule := Classify(varMap.Keys, t);
      if rule.variable in varMap {
        r := ParseInstanceCall(pool, t, fuel);
      } else if rule.MethodCall? {
        r := ParseRoutineCall(pool, rule.variable, rule.methodName, rule.args, jsCode, fuel);
      } else {
        GrowsRefl(pool.exprs, varMap.Values, pool.nothing);
        var n := pool.GetNothing();
        NothingGrows(old(pool.exprs), old(pool.exprs), pool.exprs, varMap.Values, old(pool.nothing), old(pool.nothing), pool.nothing);
        r := Defined(n);
      }
    }

    /** `recv.method(args)` or `recv.property` with recv in scope: the
        method applied to recv's slot. */
    method ParseInstanceCall(pool: ExpressionPool, t: string, fuel: nat) returns (r: Outcome<Slot>)
      requires Valid(pool)
      requires Classify(varMap.Keys, t).MethodCall? || Classify(varMap.Keys, t).InstanceProperty?
      requires Classify(varMap.Keys, t).variable in varMap
      modifies this, pool
      decreases fuel, |t|, 0
      ensures Valid(pool) && |pool.exprs| >= old(|pool.exprs|)
      ensures old(pool.nothing).Some? ==> pool.nothing == old(pool.nothing)
      ensures varMap == old(varMap) && stack == old(stack)
      ensures forall f :: f in old(fnMap) ==> f in fnMap && fnMap[f] == old(fnMap)[f]
      ensures Grows(old(pool.exprs), pool.exprs, varMap.Values, old(pool.nothing), pool.nothing)
      ensures r.Defined? ==> InRegion(r.value, old(|pool.exprs|), varMap.Values, pool.nothing)
      ensures r.Defined? ==> Parsed(pool.exprs, pool.nothing, varMap, t, r.value)
      ensures Total(varMap, t) ==> r.Defined?
    {
      var rule := Classify(varMap.Keys, t);
      var inst := varMap[rule.variable];
      assert varMap.Values + {inst} == varMap.Values;
      if rule.MethodCall? {
        LiteralCountsDefined(pool.exprs, varMap, rule.args);
        r := ParseMethodCall(pool, inst, rule.methodName, rule.args, fuel);
      } else {
        r := ParseMethodCall(pool, inst, rule.property, "", fuel);
      }
    }

    /** The definitions of the object's routines, each pushed as a
        `Function` and entered in `_fnMap` under "object.name" unless that
        key is already there (`std::map::insert`). */
    method AddRoutines(pool: ExpressionPool, variable: string, defs: seq<FunctionDef>)
      requires Valid(pool)
      modifies this, pool
      ensures Valid(pool) && pool.nothing == old(pool.nothing)
      ensures |pool.exprs| == |old(pool.exprs)| + |defs| && pool.exprs[..|old(pool.exprs)|] == old(pool.exprs)
      ensures varMap == old(varMap) && stack == old(stack)
      ensures forall f :: f in old(fnMap) ==> f in fnMap && fnMap[f] == old(fnMap)[f]
      ensures Grows(old(pool.exprs), pool.exprs, varMap.Values, pool.nothing, pool.nothing)
      ensures forall f :: f in fnMap && f !in old(fnMap) ==> FirstDefinition(pool.exprs, |old(pool.exprs)|, variable, defs, f, fnMap[f])
      ensures forall k :: 0 <= k < |defs| ==> variable + "." + defs[k].name in fnMap
    {
      GrowsRefl(pool.exprs, varMap.Values, pool.nothing);
      var i := 0;
      while i < |defs|
        invariant 0 <= i <= |defs|
        invariant Valid(pool) && pool.nothing == old(pool.nothing)
        invariant |pool.exprs| == |old(pool.exprs)| + i && pool.exprs[..|old(pool.exprs)|] == old(pool.exprs)
        invariant varMap == old(varMap) && stack == old(stack)
        invariant forall f :: f in old(fnMap) ==> f in fnMap && fnMap[f] == old(fnMap)[f]
        invariant Grows(old(pool.exprs), pool.exprs, varMap.Values, pool.nothing, pool.nothing)
        invariant forall f :: f in fnMap && f !in old(fnMap) ==>
          FirstDefinition(pool.exprs, |old(pool.exprs)|, variable, defs, f, fnMap[f]) && fnMap[f] < |old(pool.exprs)| + i
        invariant forall k :: 0 <= k < i ==> variable + "." + defs[k].name in fnMap
      {
        var d := defs[i];
        var newKey := variable + "." + d.name;
        ghost var before := pool.exprs;
        Pushed(old(pool.exprs), before, Routine(d.name, d.vars, d.code, []), varMap, varMap.Values, pool.nothing, pool.nothing);
        var slot := pool.Push(Routine(d.name, d.vars, d.code, []));
        RoutineEntered(before, pool.exprs, |old(pool.exprs)|, variable, defs, i, old(fnMap), fnMap);
        if newKey !in fnMap {
          fnMap := fnMap[newKey := slot];
        }
        i := i + 1;
      }
    }

    /** The argument list of a routine call: a piece naming a variable of
        the scope passes that variable; any other piece is a constant
        string, pushed. */
    method ArgumentSlots(pool: ExpressionPool, args: string) returns (argValues: seq<Slot>)
      requires Valid(pool)
      modifies pool
      ensures Valid(pool) && pool.nothing == old(pool.nothing)
      ensures |pool.exprs| >= |old(pool.exprs)| && pool.exprs[..|old(pool.exprs)|] == old(pool.exprs)
      ensures Grows(old(pool.exprs), pool.exprs, varMap.Values, pool.nothing, pool.nothing)
      ensures |argValues| == |SplitSpec(args, ',')|
      ensures forall k :: 0 <= k < |argValues| ==> argValues[k] < |pool.exprs|
      ensures forall k :: 0 <= k < |argValues| ==>
        var piece := SplitSpec(args, ',')[k];
        (piece in varMap ==> argValues[k] == varMap[piece]) &&
        (piece !in varMap ==> old(|pool.exprs|) <= argValues[k] && pool.exprs[argValues[k]] == Str(piece))
    {
      var pieces := Split(args, ',');
      argValues := [];
      GrowsRefl(pool.exprs, varMap.Values, pool.nothing);
      var k := 0;
      while k < |pieces|
        invariant 0 <= k <= |pieces| && |argValues| == k
        invariant Valid(pool) && pool.nothing == old(pool.nothing)
        invariant |pool.exprs| >= |old(pool.exprs)| && pool.exprs[..|old(pool.exprs)|] == old(pool.exprs)
        invariant Grows(old(pool.exprs), pool.exprs, varMap.Values, pool.nothing, pool.nothing)
        invariant forall j :: 0 <= j < k ==> argValues[j] < |pool.exprs|
        invariant forall j :: 0 <= j < k ==>
          (pieces[j] in varMap ==> argValues[j] == varMap[pieces[j]]) &&
          (pieces[j] !in varMap ==> old(|pool.exprs|) <= argValues[j] && pool.exprs[argValues[j]] == Str(pieces[j]))
      {
        if pieces[k] in varMap {
          argValues := argValues + [varMap[pieces[k]]];
        } else {
          // a constant: always an integer in the scripts met so far
          Pushed(old(pool.exprs), pool.exprs, Str(pieces[k]), varMap, varMap.Values, pool.nothing, pool.nothing);
          var s := pool.Push(Str(pieces[k]));
          argValues := argValues + [s];
        }
        k := k + 1;
      }
    }

    /** The `MethodCall` branch of `parseCode` when the object is not a
        variable of the scope: the routine "object.routineName" is looked up
        in `_fnMap`, after adding the routines of the object's definition
        `var object = { ... };` in the script when it is missing. The call
        is a fresh copy of that routine, its parameters bound to the
        arguments, its body parsed at once. */
    method ParseRoutineCall(pool: ExpressionPool, variable: string, routineName: string, args: string,
                            jsCode: string, fuel: nat)
      returns (r: Outcome<Slot>)
      requires Valid(pool)
      modifies this, pool
      decreases fuel, |args|, 5
      ensures Valid(pool) && |pool.exprs| >= old(|pool.exprs|)
      ensures old(pool.nothing).Some? ==> pool.nothing == old(pool.nothing)
      ensures varMap == old(varMap) && stack == old(stack)
      ensures forall f :: f in old(fnMap) ==> f in fnMap && fnMap[f] == old(fnMap)[f]
      ensures Grows(old(pool.exprs), pool.exprs, varMap.Values, old(pool.nothing), pool.nothing)
      ensures r.Defined? ==> r.value < |pool.exprs|
      ensures variable + "." + routineName !in old(fnMap) && VarDefinition(jsCode, variable).None? ==>
        r.Defined? && pool.nothing == Some(r.value)
      ensures r.Defined? && pool.nothing != Some(r.value) ==>
        && old(|pool.exprs|) <= r.value
        && variable + "." + routineName in fnMap
        && pool.exprs[r.value].Routine?
        && 0 < |pool.exprs[r.value].stack| == |SplitSpec(pool.exprs[r.value].code, ';')|
      ensures r.Defined? && variable + "." + routineName in old(fnMap) ==>
        var template := old(pool.exprs)[old(fnMap)[variable + "." + routineName]];
        && template.Routine? && pool.exprs[r.value].Routine?
        && pool.exprs[r.value].name == template.name
        && pool.exprs[r.value].vars == template.vars && pool.exprs[r.value].code == template.code
      ensures r.Defined? && variable + "." + routineName !in old(fnMap) && pool.nothing != Some(r.value) ==>
        && VarDefinition(jsCode, variable).Some?
        && FirstNamed(FunctionDefs(VarDefinition(jsCode, variable).value), routineName).Some?
        && var d := FirstNamed(FunctionDefs(VarDefinition(jsCode, variable).value), routineName).value;
           && pool.exprs[r.value].Routine? && pool.exprs[r.value].name == routineName
           && pool.exprs[r.value].vars == d.vars && pool.exprs[r.value].code == d.code
    {
      var def := RoutineSlot(pool, variable, routineName, jsCode);
      ghost var mid := pool.exprs;
      if def.None? {
        var n := pool.GetNothing();
        NothingGrows(old(pool.exprs), mid, pool.exprs, varMap.Values, old(pool.nothing), old(pool.nothing), pool.nothing);
        return Defined(n);
      }
      r := CallRoutine(pool, def.value, args, jsCode, fuel);
      GrowsTrans(old(pool.exprs), mid, pool.exprs, varMap.Values, old(pool.nothing), old(pool.nothing), pool.nothing);
    }

    /** The `_fnMap` entry "object.routine", after adding the routines of
        the object's definition `var object = { ... };` in the script when
        the key is missing; None when there is no such definition or it
        has no routine of that name. */
    method RoutineSlot(pool: ExpressionPool, variable: string, routineName: string, jsCode: string)
      returns (def: Option<Slot>)
      requires Valid(pool)
      modifies this, pool
      ensures Valid(pool) && pool.nothing == old(pool.nothing)
      ensures |pool.exprs| >= old(|pool.exprs|) && pool.exprs[..old(|pool.exprs|)] == old(pool.exprs)
      ensures varMap == old(varMap) && stack == old(stack)
      ensures forall f :: f in old(fnMap) ==> f in fnMap && fnMap[f] == old(fnMap)[f]
      ensures Grows(old(pool.exprs), pool.exprs, varMap.Values, pool.nothing, pool.nothing)
      ensures def.Some? ==> def.value < |pool.exprs| && variable + "." + routineName in fnMap
      ensures variable + "." + routineName in old(fnMap) ==>
        def == Some(old(fnMap)[variable + "." + routineName]) && pool.exprs == old(pool.exprs)
      ensures variable + "." + routineName !in old(fnMap) ==>
        && (def.Some? <==> VarDefinition(jsCode, variable).Some? &&
                           FirstNamed(FunctionDefs(VarDefinition(jsCode, variable).value), routineName).Some?)
        && (def.Some? ==>
              var d := FirstNamed(FunctionDefs(VarDefinition(jsCode, variable).value), routineName).value;
              pool.exprs[def.value] == Routine(routineName, d.vars, d.code, []))
    {
      GrowsRefl(pool.exprs, varMap.Values, pool.nothing);
      var key := variable + "." + routineName;
      if key in fnMap {
        return Some(fnMap[key]);
      }
      var body := VarDefinition(jsCode, variable);
      if body.None? {
        return None;
      }
      ghost var base := |pool.exprs|;
      var defs := FunctionDefs(body.value);
      AddRoutines(pool, variable, defs);
      FirstNamedKeyed(variable, defs, routineName, fnMap);
      if key !in fnMap {
        return None;
      }
      FirstDefinitionNamed(pool.exprs, base, variable, defs, routineName, fnMap[key]);
      def := Some(fnMap[key]);
    }

    /** A call of the routine defined in slot def: a fresh `Function` with
        the definition's name, parameters and body, its parameters bound to
        the arguments, its body parsed at once (one level deeper), pushed as
        an expression. */
    method CallRoutine(pool: ExpressionPool, def: Slot, args: string, jsCode: string, fuel: nat)
      returns (r: Outcome<Slot>)
      requires Valid(pool) && def < |pool.exprs|
      modifies this, pool
      decreases fuel, |args|, 4
      ensures Valid(pool) && |pool.exprs| >= old(|pool.exprs|)
      ensures old(pool.nothing).Some? ==> pool.nothing == old(pool.nothing)
      ensures varMap == old(varMap) && stack == old(stack) && fnMap == old(fnMap)
      ensures Grows(old(pool.exprs), pool.exprs, varMap.Values, old(pool.nothing), pool.nothing)
      ensures r.Defined? ==>
        && old(|pool.exprs|) <= r.value < |pool.exprs|
        && old(pool.exprs[def]).Routine?
        && pool.exprs[r.value].Routine?
        && pool.exprs[r.value] == Routine(old(pool.exprs[def]).name, old(pool.exprs[def]).vars,
                                          old(pool.exprs[def]).code, pool.exprs[r.value].stack)
        && 0 < |pool.exprs[r.value].stack| == |SplitSpec(old(pool.exprs[def]).code, ';')|
    {
      var argValues := ArgumentSlots(pool, args);
      ghost var mid := pool.exprs;
      var template := pool.exprs[def];
      if !template.Routine? {
        // `static_cast<Function*>` of an expression that is not a Function
        return Undefined;
      }
      var fn := new Function(template.name, template.vars, template.code);
      var bound := fn.SetArguments(argValues);
      if bound.Undefined? || fuel == 0 {
        return Undefined;
      }
      BindingsIn(template.vars, argValues, |pool.exprs|);
      forall v | v in fn.varMap
        ensures fn.varMap[v] < |mid| && Leaf(mid[fn.varMap[v]])
        ensures fn.varMap[v] in varMap.Values || old(|pool.exprs|) <= fn.varMap[v] < |mid|
      {
        var k :| 0 <= k < |argValues| && argValues[k] == fn.varMap[v];
      }
      var last := fn.ParseBody(pool, jsCode, fuel - 1);
      GrowsThroughCall(old(pool.exprs), mid, pool.exprs, varMap, fn.varMap, old(pool.nothing), pool.nothing);
      if last.Undefined? {
        return Undefined;
      }
      ghost var body := pool.exprs;
      forall i | 0 <= i < |fn.stack|
        ensures InRegion(fn.stack[i], old(|pool.exprs|), varMap.Values, pool.nothing)
      {
        if fn.stack[i] in fn.varMap.Values {
          var v :| v in fn.varMap && fn.varMap[v] == fn.stack[i];
        }
      }
      var e := Routine(fn.name, fn.vars, fn.code, fn.stack);
      Pushed(old(pool.exprs), body, e, varMap, varMap.Values, old(pool.nothing), pool.nothing);
      var s := pool.Push(e);
      r := Defined(s);
    }

    /** One statement of the body, `_stack.push_back(parseCode(t))`: the
        statement t, the next of the texts after those whose slots are
        already on the stack, is parsed and its slot appended. */
    method ParseNext(pool: ExpressionPool, t: string, jsCode: string, fuel: nat,
                     ghost texts: seq<string>, ghost slots: seq<Slot>)
      returns (r: Outcome<Slot>)
      requires Valid(pool)
      requires |slots| < |texts| && t == texts[|slots|] && |t| <= |code|
      requires AllParsed(pool.exprs, pool.nothing, varMap, texts, slots)
      modifies this, pool
      decreases fuel, |code| + 1, 1
      ensures Valid(pool) && |pool.exprs| >= old(|pool.exprs|)
      ensures old(pool.nothing).Some? ==> pool.nothing == old(pool.nothing)
      ensures varMap == old(varMap)
      ensures forall f :: f in old(fnMap) ==> f in fnMap && fnMap[f] == old(fnMap)[f]
      ensures Grows(old(pool.exprs), pool.exprs, varMap.Values, old(pool.nothing), pool.nothing)
      ensures r.Undefined? ==> stack == old(stack)
      ensures r.Defined? ==> stack == old(stack) + [r.value]
      ensures r.Defined? ==> InRegion(r.value, old(|pool.exprs|), varMap.Values, pool.nothing)
      ensures r.Defined? ==> AllParsed(pool.exprs, pool.nothing, varMap, texts, slots + [r.value])
      ensures Total(varMap, t) ==> r.Defined?
    {
      ghost var nothingBefore := pool.nothing;
      r := ParseCode(pool, t, jsCode, fuel);
      if r.Defined? {
        AllParsedGrows(old(pool.exprs), pool.exprs, nothingBefore, pool.nothing, varMap, texts, slots, r.value);
        stack := stack + [r.value];
      }
    }

    /** `parseCode(jsCode)`: every ';'-separated statement of the body, in
        order, appended to the statements; the result is the last one, and
        `back()` of an empty statement list is undefined. */
    method ParseBody(pool: ExpressionPool, jsCode: string, fuel: nat) returns (r: Outcome<Slot>)
      requires Valid(pool)
      modifies this, pool
      decreases fuel, |code| + 1, 2
      ensures Valid(pool) && |pool.exprs| >= old(|pool.exprs|)
      ensures varMap == old(varMap)
      ensures forall f :: f in old(fnMap) ==> f in fnMap && fnMap[f] == old(fnMap)[f]
      ensures Grows(old(pool.exprs), pool.exprs, varMap.Values, old(pool.nothing), pool.nothing)
      ensures |stack| >= |old(stack)| && stack[..|old(stack)|] == old(stack)
      ensures forall k :: |old(stack)| <= k < |stack| ==>
        InRegion(stack[k], old(|pool.exprs|), varMap.Values, pool.nothing)
      ensures r.Defined? <==> |stack| > 0 && |stack| == |old(stack)| + |SplitSpec(code, ';')|
      ensures r.Defined? ==> r.value == stack[|stack| - 1]
      ensures old(pool.nothing).Some? ==> pool.nothing == old(pool.nothing)
      ensures r.Defined? ==> AllParsed(pool.exprs, pool.nothing, varMap, SplitSpec(code, ';'), stack[|old(stack)|..])
      ensures |old(stack)| + |SplitSpec(code, ';')| > 0 ==>
        (forall k :: 0 <= k < |SplitSpec(code, ';')| ==> Total(varMap, SplitSpec(code, ';')[k])) ==> r.Defined?
    {
      var pieces := Split(code, ';');
      SplitShorter(code, ';');
      ghost var slots: seq<Slot> := [];
      GrowsRefl(pool.exprs, varMap.Values, pool.nothing);
      var i := 0;
      while i < |pieces|
        invariant 0 <= i <= |pieces| && |slots| == i
        invariant Valid(pool) && |pool.exprs| >= old(|pool.exprs|)
        invariant old(pool.nothing).Some? ==> pool.nothing == old(pool.nothing)
        invariant varMap == old(varMap)
        invariant forall f :: f in old(fnMap) ==> f in fnMap && fnMap[f] == old(fnMap)[f]
        invariant Grows(old(pool.exprs), pool.exprs, varMap.Values, old(pool.nothing), pool.nothing)
        invariant stack == old(stack) + slots
        invariant forall k :: 0 <= k < |slots| ==> InRegion(slots[k], old(|pool.exprs|), varMap.Values, pool.nothing)
        invariant AllParsed(pool.exprs, pool.nothing, varMap, pieces, slots)
      {
        ghost var before := pool.exprs;
        ghost var nothingBefore := pool.nothing;
        var s := ParseNext(pool, pieces[i], jsCode, fuel, pieces, slots);
        GrowsTrans(old(pool.exprs), before, pool.exprs, varMap.Values, old(pool.nothing), nothingBefore, pool.nothing);
        if s.Undefined? {
          assert !Total(varMap, pieces[i]);
          return Undefined;
        }
        slots := slots + [s.value];
        i := i + 1;
      }
      assert stack[|old(stack)|..] == slots;
      if stack == [] {
        return Undefined;
      }
      r := Defined(stack[|stack| - 1]);
    }

    /** `interpret()`: runs the statements in order and gives the value of
        the last one; with no statements it flows off its end, which is
        undefined. */
    method Interpret(pool: ExpressionPool) returns (r: Outcome<string>)
      requires Valid(pool)
      modifies pool
      ensures r.Defined? <==> EvalStack(old(pool.exprs), |old(pool.exprs)|, stack, 0).Defined?
      ensures r.Defined? ==> (r.value, pool.exprs) == EvalStack(old(pool.exprs), |old(pool.exprs)|, stack, 0).value
      ensures r.Undefined? ==> pool.exprs == old(pool.exprs)
      ensures pool.Valid() && pool.nothing == old(pool.nothing)
    {
      if EvalStack(pool.exprs, |pool.exprs|, stack, 0).Undefined? {
        return Undefined;
      }
      EvalStackWithin(pool.exprs, |pool.exprs|, stack, 0, 0, {}, None);
      var s := pool.InterpretStack(|pool.exprs|, stack);
      r := Defined(s);
    }
  }

  /** The scope `setArguments` builds only names slots of the arguments. */
  lemma BindingsIn(vars: string, args: seq<Slot>, n: nat)
    requires forall j :: 0 <= j < |args| ==> args[j] < n
    ensures Bindings(vars, args).Defined? ==>
      forall v :: v in Bindings(vars, args).value ==>
        Bindings(vars, args).value[v] in args && Bindings(vars, args).value[v] < n
  {
  }
}
