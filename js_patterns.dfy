/** The regular expressions of the interpreter, each written as a
    hand-made splitter over the text. `std::regex_search` returns the
    leftmost match; every pattern here is built around one key character
    (the '=' of an assignment, the '[' of an index, the '.' of a call) whose
    surroundings are pinned down by character classes, so the leftmost
    match is the one around the first key character whose surroundings
    fit, and its groups are the maximal runs the greedy quantifiers take.
    The statement texts these patterns see are pieces of a routine body,
    which `FunctionTailAt` takes from a `(.*)` capture and so holds no line
    break (its postcondition), nor do its pieces (`SplitNoLineBreaks`); so
    ".*" is "the rest of the text". */
module JsPatterns {
  import opened Text
  import opened JsText

  /** The first key position from k on at which `at` fits. */
  function FirstFit<M>(t: string, at: nat -> Option<M>, k: nat): (r: Option<(nat, M)>)
    decreases |t| - k
    ensures r.Some? ==> k <= r.value.0 < |t| && at(r.value.0) == Some(r.value.1)
    ensures r.Some? ==> forall j :: k <= j < r.value.0 ==> at(j).None?
    ensures r.None? ==> forall j :: k <= j < |t| ==> at(j).None?
  {
    if k >= |t| then None
    else
      match at(k)
      case Some(m) => Some((k, m))
      case None => FirstFit(t, at, k + 1)
  }

  /** What the leftmost match captures, or None when nothing matches. */
  function Search<M>(t: string, at: nat -> Option<M>): Option<M>
  {
    match FirstFit(t, at, 0)
    case None => None
    case Some((_, m)) => Some(m)
  }

  predicate IsParamChar(c: char) { IsAlnum(c) || c == ',' }

  predicate IsFnParamChar(c: char) { IsSpace(c) || IsAlnum(c) || c == ',' }

  predicate NotLineBreak(c: char) { !IsLineBreak(c) }

  /** `_fnParams` after its '(' at i - 1: `""`, or a run of letters,
      digits and commas; then ')'. The argument text and the index after
      the ')'. */
  function ParamsAt(t: string, i: nat): (r: Option<(string, nat)>)
    ensures r.Some? ==> i < r.value.1 <= |t| && r.value.0 == t[i..r.value.1 - 1]
  {
    if IsAt(t, "\"\")", i) then Some((t[i..i + 2], i + 3))
    else if i > |t| then None
    else
      var e := SpanFrom(t, i, IsParamChar);
      if e < |t| && t[e] == ')' then Some((t[i..e], e + 1)) else None
  }

  // ---------------------------------------------------------------------
  // The statement patterns
  // ---------------------------------------------------------------------

  /** The rule `parseCode` picks for a statement, with the groups it uses. */
  datatype Rule =
    | LocalVar
    | IntegerLiteral
    | AssignMethod(variable: string, instance: string, methodName: string, args: string)
    | AssignIndexed(target: string, index: string, source: string)
    | AssignAny(target: string, source: string)
    | Indexed(variable: string, index: string)
    | MethodCall(variable: string, methodName: string, args: string)
    | DefineFromIndexed(newVar: string, srcVar: string, index: string)
    | Modulo(lhs: string, rhs: string)
    | InstanceProperty(variable: string, property: string)
    | Unrecognized

  /** Every group of r is shorter than n. */
  predicate GroupsShorter(r: Rule, n: nat)
  {
    match r
    case AssignMethod(v, i, m, a) => |v| < n && |i| < n && |m| < n && |a| < n
    case AssignIndexed(t, i, s) => |t| < n && |i| < n && |s| < n
    case AssignAny(t, s) => |t| < n && |s| < n
    case Indexed(v, i) => |v| < n && |i| < n
    case MethodCall(v, m, a) => |v| < n && |m| < n && |a| < n
    case DefineFromIndexed(v, s, i) => |v| < n && |s| < n && |i| < n
    case Modulo(l, r) => |l| < n && |r| < n
    case InstanceProperty(v, p) => |v| < n && |p| < n
    case _ => true
  }

  /** `AssignMethod`, `\s*(\w+)\s*=\s*\s*(\w+)\.(\w+)\s*\((args)\)` with \w
      for [[:alnum:]], around the '=' at e. */
  function AssignMethodAt(t: string, e: nat): (r: Option<Rule>)
    ensures r.Some? ==> r.value.AssignMethod? && GroupsShorter(r.value, |t|)
  {
    if e >= |t| || t[e] != '=' then None
    else
      var w := SpanBack(t, e, IsSpace);
      var v := SpanBack(t, w, IsAlnum);
      var a := SpanFrom(t, e + 1, IsSpace);
      var b := SpanFrom(t, a, IsAlnum);
      if v == w || a == b || b >= |t| || t[b] != '.' then None
      else
        var c := SpanFrom(t, b + 1, IsAlnum);
        var d := SpanFrom(t, c, IsSpace);
        if c == b + 1 || d >= |t| || t[d] != '(' then None
        else
          match ParamsAt(t, d + 1)
          case None => None
          case Some((args, _)) => Some(AssignMethod(t[v..w], t[a..b], t[b + 1..c], args))
  }

  /** `AssignIndexed`, `(\w+)\[(.*)\]=(.*)`, around the '[' at q: the index
      runs to the last "]=". */
  function AssignIndexedAt(t: string, q: nat): (r: Option<Rule>)
    ensures r.Some? ==> r.value.AssignIndexed? && GroupsShorter(r.value, |t|)
  {
    if q >= |t| || t[q] != '[' then None
    else
      var v := SpanBack(t, q, IsAlnum);
      var k := RFind(t, "]=", |t|);
      if v == q || k.None? || k.value < q + 1 then None
      else Some(AssignIndexed(t[v..q], t[q + 1..k.value], t[k.value + 2..]))
  }

  /** `AssignAny`, `(.*)=(.*)`: split at the last '='. */
  function AssignAnyMatch(t: string): (r: Option<Rule>)
    ensures r.Some? ==> r.value.AssignAny? && GroupsShorter(r.value, |t|)
  {
    match RFind(t, "=", |t|)
    case None => None
    case Some(k) => Some(AssignAny(t[..k], t[k + 1..]))
  }

  /** `Indexed`, `(\w+)\[(.*)\]`, around the '[' at q: the index runs to
      the last ']'. */
  function IndexedAt(t: string, q: nat): (r: Option<Rule>)
    ensures r.Some? ==> r.value.Indexed? && GroupsShorter(r.value, |t|)
  {
    if q >= |t| || t[q] != '[' then None
    else
      var v := SpanBack(t, q, IsAlnum);
      var k := RFind(t, "]", |t|);
      if v == q || k.None? || k.value <= q then None
      else Some(Indexed(t[v..q], t[q + 1..k.value]))
  }

  /** `MethodCall`, `\s*(\w+)\.(\w+)\s*\((args)\)`, around the '.' at d. */
  function MethodCallAt(t: string, d: nat): (r: Option<Rule>)
    ensures r.Some? ==> r.value.MethodCall? && GroupsShorter(r.value, |t|)
  {
    if d >= |t| || t[d] != '.' then None
    else
      var v := SpanBack(t, d, IsAlnum);
      var c := SpanFrom(t, d + 1, IsAlnum);
      var s := SpanFrom(t, c, IsSpace);
      if v == d || c == d + 1 || s >= |t| || t[s] != '(' then None
      else
        match ParamsAt(t, s + 1)
        case None => None
        case Some((args, _)) => Some(MethodCall(t[v..d], t[d + 1..c], args))
  }

  /** `DefineFromIndexed`, `\s*var\s+(\w+)\s*=\s*(\w+)\[(.*)\]`, around the
      '=' at e. */
  function DefineFromIndexedAt(t: string, e: nat): (r: Option<Rule>)
    ensures r.Some? ==> r.value.DefineFromIndexed? && GroupsShorter(r.value, |t|)
    ensures r.Some? ==> e < |t| && t[e] == '='
  {
    if e >= |t| || t[e] != '=' then None
    else
      var w := SpanBack(t, e, IsSpace);
      var v := SpanBack(t, w, IsAlnum);
      var u := SpanBack(t, v, IsSpace);
      var a := SpanFrom(t, e + 1, IsSpace);
      var b := SpanFrom(t, a, IsAlnum);
      var k := RFind(t, "]", |t|);
      if v == w || u == v || u < 3 || !IsAt(t, "var", u - 3) || a == b || b >= |t| || t[b] != '['
         || k.None? || k.value <= b
      then None
      else Some(DefineFromIndexed(t[v..w], t[a..b], t[b + 1..k.value]))
  }

  /** `Modulo`, `^(.+)%(.+)$`: split at the last '%' that has a character
      on each side. */
  function ModuloMatch(t: string): (r: Option<Rule>)
    ensures r.Some? ==> r.value.Modulo? && GroupsShorter(r.value, |t|)
  {
    if |t| < 3 then None
    else
      match RFind(t, "%", |t| - 2)
      case None => None
      case Some(k) => if k == 0 then None else Some(Modulo(t[..k], t[k + 1..]))
  }

  /** `InstanceProperty`, `\s*(\w+)\.(\w+)\s*`, around the '.' at d. */
  function InstancePropertyAt(t: string, d: nat): (r: Option<Rule>)
    ensures r.Some? ==> r.value.InstanceProperty? && GroupsShorter(r.value, |t|)
  {
    if d >= |t| || t[d] != '.' then None
    else
      var v := SpanBack(t, d, IsAlnum);
      var c := SpanFrom(t, d + 1, IsAlnum);
      if v == d || c == d + 1 then None
      else Some(InstanceProperty(t[v..d], t[d + 1..c]))
  }

  function AssignMethodMatch(t: string): (r: Option<Rule>)
    ensures r.Some? ==> r.value.AssignMethod? && GroupsShorter(r.value, |t|)
  {
    Search(t, e => AssignMethodAt(t, e))
  }

  function AssignIndexedMatch(t: string): (r: Option<Rule>)
    ensures r.Some? ==> r.value.AssignIndexed? && GroupsShorter(r.value, |t|)
  {
    Search(t, q => AssignIndexedAt(t, q))
  }

  function IndexedMatch(t: string): (r: Option<Rule>)
    ensures r.Some? ==> r.value.Indexed? && GroupsShorter(r.value, |t|)
  {
    Search(t, q => IndexedAt(t, q))
  }

  function MethodCallMatch(t: string): (r: Option<Rule>)
    ensures r.Some? ==> r.value.MethodCall? && GroupsShorter(r.value, |t|)
  {
    Search(t, d => MethodCallAt(t, d))
  }

  function DefineFromIndexedMatch(t: string): (r: Option<Rule>)
    ensures r.Some? ==> r.value.DefineFromIndexed? && GroupsShorter(r.value, |t|)
  {
    Search(t, e => DefineFromIndexedAt(t, e))
  }

  function InstancePropertyMatch(t: string): (r: Option<Rule>)
    ensures r.Some? ==> r.value.InstanceProperty? && GroupsShorter(r.value, |t|)
  {
    Search(t, d => InstancePropertyAt(t, d))
  }

  /** No pattern of the chain matches t. */
  predicate NoPatternMatches(t: string)
  {
    && AssignMethodMatch(t).None? && AssignIndexedMatch(t).None? && AssignAnyMatch(t).None?
    && IndexedMatch(t).None? && MethodCallMatch(t).None? && DefineFromIndexedMatch(t).None?
    && ModuloMatch(t).None? && InstancePropertyMatch(t).None?
  }

  /** `parseCode(toParse, jsCode)`'s choice: a variable of the scope, then an
      integer literal, then the first pattern of its if / else-if chain
      that matches. */
  function Classify(vars: set<string>, t: string): (r: Rule)
    ensures r == LocalVar <==> t in vars
    ensures r == IntegerLiteral <==> t !in vars && AllDigits(t)
    ensures r == Unrecognized <==> t !in vars && !AllDigits(t) && NoPatternMatches(t)
    ensures GroupsShorter(r, |t|)
  {
    if t in vars then LocalVar
    else if IsInteger(t) then IntegerLiteral
    else if AssignMethodMatch(t).Some? then AssignMethodMatch(t).value
    else if AssignIndexedMatch(t).Some? then AssignIndexedMatch(t).value
    else if AssignAnyMatch(t).Some? then AssignAnyMatch(t).value
    else if IndexedMatch(t).Some? then IndexedMatch(t).value
    else if MethodCallMatch(t).Some? then MethodCallMatch(t).value
    else if DefineFromIndexedMatch(t).Some? then DefineFromIndexedMatch(t).value
    else if ModuloMatch(t).Some? then ModuloMatch(t).value
    else if InstancePropertyMatch(t).Some? then InstancePropertyMatch(t).value
    else Unrecognized
  }

  // ---------------------------------------------------------------------
  // Properties of the order
  // ---------------------------------------------------------------------

  /** `(.*)=(.*)` matches every text that holds a '='. */
  lemma AssignAnyMatchesEquals(t: string, e: nat)
    requires e < |t| && t[e] == '='
    ensures AssignAnyMatch(t).Some?
  {
    assert IsAt(t, "=", e) by {
      assert t[e..e + 1] == [t[e]];
    }
  }

  /** The `DefineFromIndexed` branch is dead code: its pattern contains a
      '=', so `AssignAny`, tried earlier, has already matched. */
  lemma DefineFromIndexedShadowed(t: string)
    ensures DefineFromIndexedMatch(t).Some? ==> AssignAnyMatch(t).Some?
  {
    var f := FirstFit(t, e => DefineFromIndexedAt(t, e), 0);
    if f.Some? {
      AssignAnyMatchesEquals(t, f.value.0);
    }
  }

  /** No statement is ever classified as `DefineFromIndexed`. */
  lemma NeverDefineFromIndexed(vars: set<string>, t: string)
    ensures !Classify(vars, t).DefineFromIndexed?
  {
    DefineFromIndexedShadowed(t);
  }

  /** Every statement that holds a '=' is a variable of the scope or one of
      the three assignment forms: nothing after `AssignAny` is ever tried
      on it. */
  lemma AssignmentsClassified(vars: set<string>, t: string, e: nat)
    requires e < |t| && t[e] == '='
    ensures var r := Classify(vars, t);
            r == LocalVar || r.AssignMethod? || r.AssignIndexed? || r.AssignAny?
  {
    AssignAnyMatchesEquals(t, e);
    assert !AllDigits(t) by {
      assert !IsDigit(t[e]);
    }
  }

  /** `AssignAny` splits at the last '=': the target and the source with
      a '=' between them give the statement back, and the source holds no
      '='. */
  lemma AssignAnySplit(t: string)
    requires AssignAnyMatch(t).Some?
    ensures var r := AssignAnyMatch(t).value;
            && t == r.target + "=" + r.source
            && forall j :: 0 <= j < |r.source| ==> r.source[j] != '='
  {
    var k := RFind(t, "=", |t|).value;
    assert t[k..k + 1] == "=";
    var src := t[k + 1..];
    forall j | 0 <= j < |src|
      ensures src[j] != '='
    {
      assert !IsAt(t, "=", k + 1 + j) && t[k + 1 + j..k + 2 + j] == [src[j]];
    }
    assert t == t[..k] + t[k..k + 1] + t[k + 1..];
  }

  /** The converse: any target, '=', and a source without '=' is split
      back into exactly that target and source. */
  lemma AssignAnyOfJoin(target: string, source: string)
    requires forall j :: 0 <= j < |source| ==> source[j] != '='
    ensures AssignAnyMatch(target + "=" + source) == Some(AssignAny(target, source))
  {
    var t := target + "=" + source;
    var k := |target|;
    assert IsAt(t, "=", k) by {
      assert t[k..k + 1] == "=";
    }
    forall j | k < j < |t|
      ensures !IsAt(t, "=", j)
    {
      assert t[j] == source[j - k - 1];
      assert t[j..j + 1] == [t[j]];
    }
    assert t[..k] == target && t[k + 1..] == source;
  }

  /** `Modulo` splits at the last '%' that leaves a character on the
      right: both sides are non-empty and they recompose the statement. */
  lemma ModuloSplit(t: string)
    requires ModuloMatch(t).Some?
    ensures var r := ModuloMatch(t).value;
            && t == r.lhs + "%" + r.rhs
            && |r.lhs| > 0 && |r.rhs| > 0
            && forall j :: 0 <= j < |r.rhs| - 1 ==> r.rhs[j] != '%'
  {
    var k := RFind(t, "%", |t| - 2).value;
    assert t[k..k + 1] == "%";
    var rhs := t[k + 1..];
    forall j | 0 <= j < |rhs| - 1
      ensures rhs[j] != '%'
    {
      assert !IsAt(t, "%", k + 1 + j) && t[k + 1 + j..k + 2 + j] == [rhs[j]];
    }
    assert t == t[..k] + t[k..k + 1] + t[k + 1..];
  }

  /** Every statement pattern hangs on a '=', '[', '.' or '%': a text with
      none of them (a declaration such as `var c`) matches none. */
  lemma KeyFreeNoMatch(t: string)
    requires '=' !in t && '[' !in t && '.' !in t && '%' !in t
    ensures NoPatternMatches(t)
  {
    forall i: nat | i < |t|
      ensures !IsAt(t, "=", i) && !IsAt(t, "%", i)
    {
      assert t[i..i + 1][0] == t[i];
    }
  }

  /** The target of `var NAME=...` is no variable of the scope and no
      pattern: `parseCode` returns the pool's Nothing for it. */
  lemma DeclarationUnrecognized(vars: set<string>, name: string)
    requires forall c :: c in name ==> IsAlnum(c)
    requires "var " + name !in vars
    ensures Classify(vars, "var " + name) == Unrecognized
  {
    var t := "var " + name;
    assert !IsDigit(t[0]);
    forall c | c in t
      ensures IsAlnum(c) || c == ' '
    {
      var i :| 0 <= i < |t| && t[i] == c;
      if i >= 4 { assert t[i] == name[i - 4]; }
    }
    KeyFreeNoMatch(t);
  }

  /** A method assignment needs the '.' of its call: a text without one
      calls no method. */
  lemma NoDotNoMethod(t: string)
    requires '.' !in t
    ensures AssignMethodMatch(t).None?
  {
    forall e: nat
      ensures AssignMethodAt(t, e).None?
    {
    }
  }

  /** `var c=a[0]` calls no method: it holds no '.'. */
  lemma DeclarationFromIndexNoMethod()
    ensures AssignMethodMatch("var c=a[0]").None?
  {
    var t := "var c=a[0]";
    forall i | 0 <= i < |t|
      ensures t[i] != '.'
    {
    }
    NoDotNoMethod(t);
  }

  /** An element assignment needs a "]=": a text without one assigns to
      no element. */
  lemma NoCloseEqualsNoElement(t: string)
    requires forall i :: 0 <= i < |t| - 1 ==> t[i] != ']' || t[i + 1] != '='
    ensures AssignIndexedMatch(t).None?
  {
    forall i: nat | i <= |t|
      ensures !IsAt(t, "]=", i)
    {
      if i + 2 <= |t| {
        assert t[i..i + 2][0] == t[i] && t[i..i + 2][1] == t[i + 1];
      }
    }
  }

  /** `var c=a[0]` assigns to no element: nothing follows its ']'. */
  lemma DeclarationFromIndexNoElement()
    ensures AssignIndexedMatch("var c=a[0]").None?
  {
    var t := "var c=a[0]";
    forall i | 0 <= i < |t| - 1
      ensures t[i] != ']'
    {
    }
    NoCloseEqualsNoElement(t);
  }

  /** A statement that calls no method and assigns to no element, but
      holds a '=', is an `AssignAny`. */
  lemma AssignAnyClassified(vars: set<string>, t: string)
    requires t !in vars && !AllDigits(t)
    requires AssignMethodMatch(t).None? && AssignIndexedMatch(t).None? && AssignAnyMatch(t).Some?
    ensures Classify(vars, t) == AssignAnyMatch(t).value
  {
  }

  /** `var c=a[0]` splits at its one '=' into `var c` and `a[0]`. */
  lemma DeclarationFromIndexSplit()
    ensures AssignAnyMatch("var c=a[0]") == Some(AssignAny("var c", "a[0]"))
  {
    assert "var c=a[0]" == "var c" + "=" + "a[0]";
    AssignAnyOfJoin("var c", "a[0]");
  }

  /** `var c=a[0]`, as the deciphering script writes it, is taken by
      `AssignAny` with the declaration `var c` as its target. */
  lemma DeclarationFromIndexClassified(vars: set<string>)
    requires "var c=a[0]" !in vars
    ensures Classify(vars, "var c=a[0]") == AssignAny("var c", "a[0]")
  {
    var t := "var c=a[0]";
    assert !IsDigit(t[0]);
    DeclarationFromIndexNoMethod();
    DeclarationFromIndexNoElement();
    DeclarationFromIndexSplit();
    AssignAnyClassified(vars, t);
  }

  // ---------------------------------------------------------------------
  // The patterns over the whole script
  // ---------------------------------------------------------------------

  /** The last '}' in [lo, hi). */
  function LastBrace(s: string, lo: nat, hi: nat): (r: Option<nat>)
    requires hi <= |s|
    decreases hi
    ensures r.Some? ==> lo <= r.value < hi && s[r.value] == '}'
    ensures r.Some? ==> forall k :: r.value < k < hi ==> s[k] != '}'
    ensures r.None? ==> forall k :: lo <= k < hi ==> s[k] != '}'
  {
    if hi <= lo then None
    else if s[hi - 1] == '}' then Some(hi - 1)
    else LastBrace(s, lo, hi - 1)
  }

  /** A function definition found in the script. */
  datatype FunctionDef = FunctionDef(name: string, vars: string, code: string)

  /** `\s*function\((params)\)\{(.*)\}` after the '=' or ':' at c: the
      parameter text, the body up to the last '}' of its line, and the
      index after that '}'. */
  function FunctionTailAt(s: string, c: nat): (r: Option<(string, string, nat)>)
    requires c < |s|
    ensures r.Some? ==> c < r.value.2 <= |s|
    ensures r.Some? ==> NoLineBreaks(r.value.1)
  {
    var a := SpanFrom(s, c + 1, IsSpace);
    if !IsAt(s, "function(", a) then None
    else
      var pe := SpanFrom(s, a + 9, IsFnParamChar);
      if pe + 1 >= |s| || s[pe] != ')' || s[pe + 1] != '{' then None
      else
        var le := SpanFrom(s, pe + 2, NotLineBreak);
        match LastBrace(s, pe + 2, le)
        case None => None
        case Some(k) => Some((s[a + 9..pe], s[pe + 2..k], k + 1))
  }

  /** `Rgx::DefineFunction`, `\s*(\w+)\s*[=:]` then the tail, around the
      separator at c, with the index where the match ends. */
  function DefineFunctionAt(s: string, c: nat): (r: Option<(FunctionDef, nat)>)
    ensures r.Some? ==> 0 < r.value.1 <= |s|
    ensures r.Some? ==> NoLineBreaks(r.value.0.code)
  {
    if c >= |s| || (s[c] != ':' && s[c] != '=') then None
    else
      var w := SpanBack(s, c, IsSpace);
      var v := SpanBack(s, w, IsAlnum);
      if v == w then None
      else
        match FunctionTailAt(s, c)
        case None => None
        case Some((vars, code, end)) => Some((FunctionDef(s[v..w], vars, code), end))
  }

  /** The definitions a `std::sregex_iterator` with `Rgx::DefineFunction`
      visits: each search resumes where the previous match ended. */
  function FunctionDefs(s: string): (r: seq<FunctionDef>)
    decreases |s|
    ensures forall k :: 0 <= k < |r| ==> NoLineBreaks(r[k].code)
  {
    var found: Option<(FunctionDef, nat)> := Search(s, c => DefineFunctionAt(s, c));
    match found
    case None => []
    case Some((d, next)) => [d] + FunctionDefs(s[next..])
  }

  /** `Rgx::defineVar(name)`, `\s*var\s+NAME\s*=\s*\{([\S\s]*?)\};`, at the
      "var" at v: the body up to the first "};". */
  function DefineVarAt(js: string, name: string, v: nat): Option<string>
  {
    if !IsAt(js, "var", v) then None
    else
      var a := SpanFrom(js, v + 3, IsSpace);
      if a == v + 3 || !IsAt(js, name, a) then None
      else
      var b := SpanFrom(js, a + |name|, IsSpace);
      if b >= |js| || js[b] != '=' then None
      else
        var c := SpanFrom(js, b + 1, IsSpace);
        if c >= |js| || js[c] != '{' then None
        else
          match Find(js, "};", c + 1)
          case None => None
          case Some(e) => Some(js[c + 1..e])
  }

  /** The body of `var name = { ... };` in the script, if any. */
  function VarDefinition(js: string, name: string): Option<string>
  {
    Search(js, v => DefineVarAt(js, name, v))
  }

  /** `findFunction`'s pattern, `NAME\s*[=:]` then the tail, at the
      occurrence of NAME at p. */
  function FindFunctionAt(js: string, name: string, p: nat): (r: Option<FunctionDef>)
    ensures r.Some? ==> r.value.name == name && NoLineBreaks(r.value.code)
  {
    if !IsAt(js, name, p) then None
    else
      var b := SpanFrom(js, p + |name|, IsSpace);
      if b >= |js| || (js[b] != '=' && js[b] != ':') then None
      else
        match FunctionTailAt(js, b)
        case None => None
        case Some((vars, code, _)) => Some(FunctionDef(name, vars, code))
  }

  /** The definition of the routine called name in the script, if any. */
  function FunctionDefinition(js: string, name: string): (r: Option<FunctionDef>)
    ensures r.Some? ==> r.value.name == name && NoLineBreaks(r.value.code)
  {
    var f := FirstFit(js, p => FindFunctionAt(js, name, p), 0);
    assert f.Some? ==> FindFunctionAt(js, name, f.value.0) == Some(f.value.1);
    Search(js, p => FindFunctionAt(js, name, p))
  }

  const SignatureTag: string := "\"signature\""

  /** `"signature"\s*,\s*(\w+)\(` at p: the routine name. */
  function SignatureFnAt(js: string, p: nat): (r: Option<string>)
    ensures r.Some? ==> |r.value| > 0 && forall k :: 0 <= k < |r.value| ==> IsAlnum(r.value[k])
  {
    if !IsAt(js, SignatureTag, p) then None
    else
      var a := SpanFrom(js, p + |SignatureTag|, IsSpace);
      if a >= |js| || js[a] != ',' then None
      else
        var b := SpanFrom(js, a + 1, IsSpace);
        var c := SpanFrom(js, b, IsAlnum);
        if b == c || c >= |js| || js[c] != '(' then None
        else Some(js[b..c])
  }

  /** `findSignatureFnName`'s search: the name of the deciphering routine. */
  function SignatureFnName(js: string): Option<string>
  {
    Search(js, p => SignatureFnAt(js, p))
  }

  /** A fit at p, with none before it, is what the search returns. */
  lemma FirstFitFinds<M>(t: string, at: nat -> Option<M>, p: nat, m: M)
    requires p < |t| && at(p) == Some(m)
    requires forall j :: 0 <= j < p ==> at(j).None?
    ensures Search(t, at) == Some(m)
  {
    var r := FirstFit(t, at, 0);
    assert r.Some? && r.value.0 == p;
  }

  /** The tag at |pre| followed by `,NAME(` is recognised as naming NAME. */
  lemma SignatureFnAtTag(js: string, p: nat, name: string)
    requires |name| > 0 && forall k :: 0 <= k < |name| ==> IsAlnum(name[k])
    requires p + |SignatureTag| + |name| + 2 <= |js|
    requires js[p..p + |SignatureTag|] == SignatureTag
    requires js[p + |SignatureTag|] == ','
    requires js[p + |SignatureTag| + 1..p + |SignatureTag| + 1 + |name|] == name
    requires js[p + |SignatureTag| + 1 + |name|] == '('
    ensures SignatureFnAt(js, p) == Some(name)
  {
    var a := p + |SignatureTag|;
    var b := a + 1;
    var c := b + |name|;
    assert SpanFrom(js, a, IsSpace) == a;
    assert js[b] == name[0];
    assert SpanFrom(js, b, IsSpace) == b;
    forall k | b <= k < c
      ensures IsAlnum(js[k])
    {
      assert js[b..c][k - b] == name[k - b];
      assert js[k] == name[k - b];
    }
    SpanFromRun(js, b, c, IsAlnum);
  }

  /** A script that reads `"signature",NAME(` where no earlier
      `"signature"` occurs names NAME as the deciphering routine. */
  lemma SignatureFnOf(pre: string, name: string, post: string)
    requires |name| > 0 && forall k :: 0 <= k < |name| ==> IsAlnum(name[k])
    requires forall i :: 0 <= i < |pre| ==> !IsAt(pre + SignatureTag + "," + name + "(" + post, SignatureTag, i)
    ensures SignatureFnName(pre + SignatureTag + "," + name + "(" + post) == Some(name)
  {
    var js := pre + SignatureTag + "," + name + "(" + post;
    var p := |pre|;
    var a := p + |SignatureTag|;
    assert js[p..a] == SignatureTag;
    assert js[a] == ',';
    assert js[a + 1..a + 1 + |name|] == name;
    assert js[a + 1 + |name|] == '(';
    SignatureFnAtTag(js, p, name);
    FirstFitFinds(js, q => SignatureFnAt(js, q), p, name);
  }

  /** A run of p-characters from i to j that ends there is the span from i. */
  lemma {:induction false} SpanFromRun(s: string, i: nat, j: nat, p: char -> bool)
    requires i <= j < |s|
    requires forall k :: i <= k < j ==> p(s[k])
    requires !p(s[j])
    ensures SpanFrom(s, i, p) == j
    decreases j - i
  {
    if i < j {
      SpanFromRun(s, i + 1, j, p);
    }
  }

  /** A run of p-characters from i to j can be skipped. */
  lemma {:induction false} SpanFromSkip(s: string, i: nat, j: nat, p: char -> bool)
    requires i <= j <= |s|
    requires forall k :: i <= k < j ==> p(s[k])
    ensures SpanFrom(s, i, p) == SpanFrom(s, j, p)
    decreases j - i
  {
    if i < j {
      SpanFromSkip(s, i + 1, j, p);
    }
  }

  /** A span inside the second part of a concatenation is that part's span. */
  lemma {:induction false} SpanFromAppend(a: string, b: string, i: nat, p: char -> bool)
    requires i <= |b|
    ensures SpanFrom(a + b, |a| + i, p) == |a| + SpanFrom(b, i, p)
    decreases |b| - i
  {
    if i < |b| {
      assert (a + b)[|a| + i] == b[i];
      SpanFromAppend(a, b, i + 1, p);
    }
  }

  /** The tail pattern fits once each of its steps is known. */
  lemma {:induction false} FunctionTailFits(s: string, c: nat, pe: nat, le: nat, k: nat, vars: string, code: string)
    requires c + 10 <= pe && pe + 2 <= k < |s|
    requires s[c + 10..pe] == vars && s[pe + 2..k] == code
    requires SpanFrom(s, c + 1, IsSpace) == c + 1
    requires IsAt(s, "function(", c + 1)
    requires SpanFrom(s, c + 10, IsFnParamChar) == pe
    requires pe + 1 < |s| && s[pe] == ')' && s[pe + 1] == '{'
    requires SpanFrom(s, pe + 2, NotLineBreak) == le
    requires LastBrace(s, pe + 2, le) == Some(k)
    ensures FunctionTailAt(s, c) == Some((vars, code, k + 1))
  {
  }

  /** `findFunction`'s pattern fits at p once the name, the separator and
      the tail are known. */
  lemma {:induction false} FindFunctionAtFits(js: string, name: string, p: nat, vars: string, code: string, e: nat)
    requires IsAt(js, name, p) && p + |name| < |js| && js[p + |name|] == '='
    requires FunctionTailAt(js, p + |name|) == Some((vars, code, e))
    ensures FindFunctionAt(js, name, p) == Some(FunctionDef(name, vars, code))
  {
    assert SpanFrom(js, p + |name|, IsSpace) == p + |name|;
  }

  /** A '}' at k with none after it before hi is the last brace. */
  lemma {:induction false} LastBraceAt(s: string, lo: nat, k: nat, hi: nat)
    requires lo <= k < hi <= |s| && s[k] == '}'
    requires forall j :: k < j < hi ==> s[j] != '}'
    ensures LastBrace(s, lo, hi) == Some(k)
    decreases hi
  {
    if k < hi - 1 {
      LastBraceAt(s, lo, k, hi - 1);
    }
  }

  /** Pieces of a text without line breaks hold none either, so the
      statement patterns never meet a line break in a routine body. */
  lemma SplitNoLineBreaks(s: string, delim: char)
    requires NoLineBreaks(s)
    ensures forall k :: 0 <= k < |SplitSpec(s, delim)| ==> NoLineBreaks(SplitSpec(s, delim)[k])
  {
    var ps := SplitSpec(s, delim);
    SplitJoin(s, delim);
    forall k | 0 <= k < |ps|
      ensures NoLineBreaks(ps[k])
    {
      JoinNoLineBreaks(ps, delim, k);
    }
  }

  lemma {:induction false} JoinNoLineBreaks(ps: seq<string>, delim: char, k: nat)
    requires k < |ps| && NoLineBreaks(Join(ps, delim))
    ensures NoLineBreaks(ps[k])
    decreases k
  {
    if |ps| > 1 {
      var j := Join(ps, delim);
      var rest := Join(ps[1..], delim);
      assert j == ps[0] + [delim] + rest;
      if k == 0 {
        forall i | 0 <= i < |ps[0]|
          ensures !IsLineBreak(ps[0][i])
        {
          assert j[i] == ps[0][i];
        }
      } else {
        forall i | 0 <= i < |rest|
          ensures !IsLineBreak(rest[i])
        {
          assert j[|ps[0]| + 1 + i] == rest[i];
        }
        JoinNoLineBreaks(ps[1..], delim, k - 1);
      }
    }
  }
}
