/** The entry points of the interpreter: find the name of the routine that
    deciphers signatures, find its definition, and run it on a signature. */
module JsEngine {
  import opened Text
  import opened JsText
  import opened JsExpr
  import opened JsPool
  import opened JsPatterns
  import opened JsFunction

  /** `findSignatureFnName`: the routine named after `"signature",` in the
      script, or the empty string when there is none. */
  function FindSignatureFnName(jsCode: string): (name: string)
    ensures name == [] <==> SignatureFnName(jsCode).None?
    ensures forall k :: 0 <= k < |name| ==> IsAlnum(name[k])
  {
    match SignatureFnName(jsCode)
    case None => []
    case Some(n) => n
  }

  /** The definition `findFunction(jsCode, fnName)` is meant to return:
      the first `fnName = function(params){body}` (or `fnName: ...`) of the
      script, or the empty `Function()` when there is none. */
  function FindFunction(jsCode: string, fnName: string): (d: FunctionDef)
    ensures FunctionDefinition(jsCode, fnName).Some? ==> d.name == fnName
    ensures FunctionDefinition(jsCode, fnName).None? ==> d == FunctionDef("", "", "")
    ensures NoLineBreaks(d.code)
  {
    match FunctionDefinition(jsCode, fnName)
    case None => FunctionDef("", "", "")
    case Some(def) => FunctionDef(fnName, def.vars, def.code)
  }

  /** The definition proper: `=function(vars){code}`. */
  function FunctionText(vars: string, code: string): string
  {
    "=function(" + vars + "){" + code + "}"
  }

  /** Where the pieces of a `FunctionText` sit. */
  lemma FunctionTextLayout(vars: string, code: string)
    ensures var f := FunctionText(vars, code);
      |f| == |vars| + |code| + 13 && f[0] == '=' && f[1..10] == "function(" &&
      f[10..10 + |vars|] == vars && f[10 + |vars|] == ')' && f[11 + |vars|] == '{' &&
      f[12 + |vars|..12 + |vars| + |code|] == code && f[12 + |vars| + |code|] == '}'
  {
  }

  /** A slice of a text that holds f at c is the matching slice of f. */
  lemma SliceWithin(js: string, c: nat, f: string, i: nat, j: nat)
    requires IsAt(js, f, c) && i <= j <= |f|
    ensures js[c + i..c + j] == f[i..j]
  {
    assert js[c..c + |f|] == f;
    forall k | 0 <= k < j - i
      ensures js[c + i..c + j][k] == f[i..j][k]
    {
      assert js[c..c + |f|][i + k] == f[i + k];
    }
  }

  /** The pieces of a `FunctionText` held at c, read off the text. */
  lemma {:induction false} FunctionTextWithin(js: string, c: nat, vars: string, code: string)
    requires IsAt(js, FunctionText(vars, code), c)
    ensures c + |vars| + |code| + 13 <= |js|
    ensures js[c] == '=' && IsAt(js, "function(", c + 1)
    ensures js[c + 10..c + 10 + |vars|] == vars
    ensures js[c + 10 + |vars|] == ')' && js[c + 11 + |vars|] == '{'
    ensures js[c + 12 + |vars|..c + 12 + |vars| + |code|] == code
    ensures js[c + 12 + |vars| + |code|] == '}'
  {
    var f := FunctionText(vars, code);
    FunctionTextLayout(vars, code);
    SliceWithin(js, c, f, 1, 10);
    SliceWithin(js, c, f, 10, 10 + |vars|);
    SliceWithin(js, c, f, 12 + |vars|, 12 + |vars| + |code|);
    assert js[c] == js[c..c + |f|][0];
    assert js[c + 10 + |vars|] == js[c..c + |f|][10 + |vars|];
    assert js[c + 11 + |vars|] == js[c..c + |f|][11 + |vars|];
    assert js[c + 12 + |vars| + |code|] == js[c..c + |f|][12 + |vars| + |code|];
  }

  /** The parameter class takes exactly the parameter text before ')'. */
  lemma {:induction false} ParamsSpan(js: string, i: nat, vars: string)
    requires i + |vars| < |js| && js[i..i + |vars|] == vars && js[i + |vars|] == ')'
    requires forall k :: 0 <= k < |vars| ==> IsFnParamChar(vars[k])
    ensures SpanFrom(js, i, IsFnParamChar) == i + |vars|
  {
    forall k | i <= k < i + |vars|
      ensures IsFnParamChar(js[k])
    {
      assert js[k] == js[i..i + |vars|][k - i];
    }
    SpanFromRun(js, i, i + |vars|, IsFnParamChar);
  }

  /** A body without line breaks and its closing brace lie inside the line. */
  lemma {:induction false} CodeSpan(js: string, i: nat, code: string)
    requires i + |code| < |js| && js[i..i + |code|] == code && js[i + |code|] == '}'
    requires NoLineBreaks(code)
    ensures SpanFrom(js, i, NotLineBreak) == SpanFrom(js, i + |code| + 1, NotLineBreak)
  {
    forall k | i <= k < i + |code| + 1
      ensures NotLineBreak(js[k])
    {
      if k < i + |code| {
        assert js[k] == js[i..i + |code|][k - i];
      }
    }
    SpanFromSkip(js, i, i + |code| + 1, NotLineBreak);
  }

  /** The rest of the line after position e holds no '}'. */
  predicate NoBraceBeforeLineEnd(js: string, e: nat)
    requires e <= |js|
  {
    '}' !in js[e..SpanFrom(js, e, NotLineBreak)]
  }

  /** The head of the tail pattern: no space, "function(", then exactly the
      parameter text before ')'. */
  lemma {:induction false} FunctionTailHead(js: string, c: nat, vars: string)
    requires c + 10 + |vars| < |js|
    requires IsAt(js, "function(", c + 1) && js[c + 10..c + 10 + |vars|] == vars && js[c + 10 + |vars|] == ')'
    requires forall k :: 0 <= k < |vars| ==> IsFnParamChar(vars[k])
    ensures SpanFrom(js, c + 1, IsSpace) == c + 1
    ensures SpanFrom(js, c + 10, IsFnParamChar) == c + 10 + |vars|
  {
    assert js[c + 1] == js[c + 1..c + 10][0];
    ParamsSpan(js, c + 10, vars);
  }

  /** The body of the tail pattern: a body without line breaks, closed by
      the last '}' of its line. */
  lemma {:induction false} FunctionTailBody(js: string, i: nat, code: string)
    requires i + |code| < |js| && js[i..i + |code|] == code && js[i + |code|] == '}'
    requires NoLineBreaks(code)
    requires NoBraceBeforeLineEnd(js, i + |code| + 1)
    ensures SpanFrom(js, i, NotLineBreak) == SpanFrom(js, i + |code| + 1, NotLineBreak)
    ensures LastBrace(js, i, SpanFrom(js, i + |code| + 1, NotLineBreak)) == Some(i + |code|)
  {
    var cb := i + |code|;
    CodeSpan(js, i, code);
    var le := SpanFrom(js, cb + 1, NotLineBreak);
    forall j | cb < j < le
      ensures js[j] != '}'
    {
      assert js[j] == js[cb + 1..le][j - cb - 1];
    }
    LastBraceAt(js, i, cb, le);
  }

  /** The tail pattern over `=function(vars){code}` at c, laid out as
      `FunctionTextWithin` reads it off the text. */
  lemma {:induction false} FunctionTailOf(js: string, c: nat, vars: string, code: string)
    requires c + |vars| + |code| + 13 <= |js|
    requires IsAt(js, "function(", c + 1)
    requires js[c + 10..c + 10 + |vars|] == vars
    requires js[c + 10 + |vars|] == ')' && js[c + 11 + |vars|] == '{'
    requires js[c + 12 + |vars|..c + 12 + |vars| + |code|] == code
    requires js[c + 12 + |vars| + |code|] == '}'
    requires forall k :: 0 <= k < |vars| ==> IsFnParamChar(vars[k])
    requires NoLineBreaks(code)
    requires NoBraceBeforeLineEnd(js, c + |vars| + |code| + 13)
    ensures FunctionTailAt(js, c) == Some((vars, code, c + |vars| + |code| + 13))
  {
    var pe := c + 10 + |vars|;
    var cb := pe + 2 + |code|;
    FunctionTailHead(js, c, vars);
    FunctionTailBody(js, pe + 2, code);
    FunctionTailFits(js, c, pe, SpanFrom(js, cb + 1, NotLineBreak), cb, vars, code);
  }

  /** `findFunction`'s pattern fits at the name of `name=function(vars){code}`,
      laid out as `FunctionTextWithin` reads it off the text. */
  lemma {:induction false} FindFunctionAtOf(js: string, name: string, p: nat, vars: string, code: string)
    requires IsAt(js, name, p)
    requires p + |name| + |vars| + |code| + 13 <= |js|
    requires js[p + |name|] == '=' && IsAt(js, "function(", p + |name| + 1)
    requires js[p + |name| + 10..p + |name| + 10 + |vars|] == vars
    requires js[p + |name| + 10 + |vars|] == ')' && js[p + |name| + 11 + |vars|] == '{'
    requires js[p + |name| + 12 + |vars|..p + |name| + 12 + |vars| + |code|] == code
    requires js[p + |name| + 12 + |vars| + |code|] == '}'
    requires forall k :: 0 <= k < |vars| ==> IsFnParamChar(vars[k])
    requires NoLineBreaks(code)
    requires NoBraceBeforeLineEnd(js, p + |name| + |vars| + |code| + 13)
    ensures FindFunctionAt(js, name, p) == Some(FunctionDef(name, vars, code))
  {
    var c := p + |name|;
    FunctionTailOf(js, c, vars, code);
    FindFunctionAtFits(js, name, p, vars, code, c + |vars| + |code| + 13);
  }

  /** `findFunction` on a script holding `name=function(vars){code}` at p,
      with no earlier occurrence of the name and no '}' in the rest of the
      line after the closing brace, returns that definition: its
      parameters and its body up to the closing brace. */
  lemma {:induction false} FindFunctionOf(js: string, name: string, p: nat, vars: string, code: string)
    requires IsAt(js, name, p) && IsAt(js, FunctionText(vars, code), p + |name|)
    requires forall i :: 0 <= i < p ==> !IsAt(js, name, i)
    requires forall k :: 0 <= k < |vars| ==> IsFnParamChar(vars[k])
    requires NoLineBreaks(code)
    requires NoBraceBeforeLineEnd(js, p + |name| + |vars| + |code| + 13)
    ensures FindFunction(js, name) == FunctionDef(name, vars, code)
  {
    var def := FunctionDef(name, vars, code);
    FunctionTextWithin(js, p + |name|, vars, code);
    FindFunctionAtOf(js, name, p, vars, code);
    FirstFitFinds(js, q => FindFunctionAt(js, name, q), p, def);
  }

  /** `findFunction` as written: its regular expression is a function-local
      `static`, built from the name of the first call only. `pattern` is that
      static, None before the first call. */
  class Engine {
    var pattern: Option<string>

    constructor ()
      ensures pattern == None
    {
      pattern := None;
    }

    method FindFunctionAsWritten(jsCode: string, fnName: string) returns (d: FunctionDef)
      modifies this
      ensures pattern == (if old(pattern).None? then Some(fnName) else old(pattern))
      ensures d == StaleFind(pattern.value, jsCode, fnName)
    {
      if pattern.None? {
        pattern := Some(fnName);
      }
      match FunctionDefinition(jsCode, pattern.value)
      case None =>
        d := FunctionDef("", "", "");
      case Some(def) =>
        d := FunctionDef(fnName, def.vars, def.code);
    }
  }

  /** What the as-written `findFunction` returns once its pattern was built
      from the name `first`: the definition of `first`, named fnName. */
  function StaleFind(first: string, jsCode: string, fnName: string): FunctionDef
  {
    match FunctionDefinition(jsCode, first)
    case None => FunctionDef("", "", "")
    case Some(def) => FunctionDef(fnName, def.vars, def.code)
  }

  /** On the first call, and whenever the name never changes, the static
      pattern is harmless. */
  lemma StaleFindSameName(jsCode: string, fnName: string)
    ensures StaleFind(fnName, jsCode, fnName) == FindFunction(jsCode, fnName)
  {
  }

  /** A name that never occurs has no definition. */
  lemma NoDefinitionWithoutName(jsCode: string, name: string)
    requires forall p :: 0 <= p < |jsCode| ==> !IsAt(jsCode, name, p)
    ensures FunctionDefinition(jsCode, name).None?
  {
    var r := FirstFit(jsCode, p => FindFunctionAt(jsCode, name, p), 0);
    if r.Some? {
      assert !IsAt(jsCode, name, r.value.0);
    }
  }

  const SecondScript: string := "cd=function(a){a}"

  /** The second script defines `cd`. */
  lemma SecondScriptDefinesCd()
    ensures FunctionDefinition(SecondScript, "cd") == Some(FunctionDef("cd", "a", "a"))
  {
    var js := SecondScript;
    assert FunctionText("a", "a") == "=function(a){a}";
    assert js[2..17] == "=function(a){a}";
    assert IsAt(js, "cd", 0) && IsAt(js, FunctionText("a", "a"), 2);
    assert NoBraceBeforeLineEnd(js, 17);
    FindFunctionOf(js, "cd", 0, "a", "a");
  }

  /** The stale pattern in action: after deciphering with a script whose
      routine is `ab`, a script whose routine is `cd` gets the empty
      `Function` back, although it defines `cd`. */
  lemma StaleFindMissesRenamedRoutine()
    ensures StaleFind("ab", SecondScript, "cd") == FunctionDef("", "", "")
    ensures FindFunction(SecondScript, "cd") == FunctionDef("cd", "a", "a")
  {
    var js := SecondScript;
    forall p | 0 <= p < |js|
      ensures !IsAt(js, "ab", p)
    {
      if p + 2 <= |js| {
        assert js[p..p + 2][0] == js[p];
        assert js[p..p + 2][1] == js[p + 1];
      }
    }
    NoDefinitionWithoutName(js, "ab");
    SecondScriptDefinesCd();
  }

  /** `decipherSignature`: the routine named by the script, its single
      parameter bound to the signature, its body parsed and run. Undefined
      when the routine binds more parameters than the one argument, when
      its body has no statement (in particular when it is not found), when
      a statement is undefined, or when nesting exceeds fuel. */
  method DecipherSignature(pool: ExpressionPool, jsCode: string, signature: string, fuel: nat)
    returns (r: Outcome<string>)
    requires pool.Valid()
    modifies pool
    ensures pool.Valid()
    ensures FunctionDefinition(jsCode, FindSignatureFnName(jsCode)).None? ==> r == Undefined
    ensures r.Defined? ==>
      var def := FunctionDefinition(jsCode, FindSignatureFnName(jsCode));
      def.Some? && Bindings(def.value.vars, [|old(pool.exprs)|]).Defined? && SplitSpec(def.value.code, ';') != []
  {
    var fnName := FindSignatureFnName(jsCode);
    var def := FindFunction(jsCode, fnName);
    ghost var found := FunctionDefinition(jsCode, fnName);
    assert found.None? ==> SplitSpec(def.code, ';') == [];
    assert found.Some? ==> def.vars == found.value.vars && def.code == found.value.code;
    var f := new Function(def.name, def.vars, def.code);
    var sig := pool.Push(Str(signature));
    var bound := f.SetArguments([sig]);
    if bound.Undefined? {
      return Undefined;
    }
    BindingsIn(def.vars, [sig], |pool.exprs|);
    var last := f.ParseBody(pool, jsCode, fuel);
    if last.Undefined? {
      return Undefined;
    }
    r := f.Interpret(pool);
  }
}
