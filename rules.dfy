/** What `eval_expr` does with values once its operands are evaluated: the binary and unary
    operators, the relational results when `compare` finds no ordering, the builtins `len`,
    `shell`, `number`, `lower`, `upper` and `sleep`, the pattern of a substitution, and the
    text a `printf` statement emits. */
module Rules {
  import opened Values
  import opened Text
  import opened Includes
  import Syntax

  /** A relational operator applied to what `compare` returned: `1` exactly when the
      ordering is one the operator admits. */
  function RelationalResult(op: Syntax.BinOp, ord: Option<Ordering>): (r: Value)
    requires op.IsRelational()
    ensures r == Int(0) || r == Int(1)
  {
    if op.Less? then Truth(ord == Some(Less))
    else if op.LessEqual? then Truth(ord == Some(Less) || ord == Some(Equal))
    else if op.Greater? then Truth(ord == Some(Greater))
    else Truth(ord == Some(Greater) || ord == Some(Equal))
  }

  /** Operands without an ordering (a string and an array, say) make every relational
      operator false; with an ordering, `<=` is `<` or equal and `>=` is `>` or equal, and
      `<` and `>` are never both true. */
  lemma RelationalLaws(ord: Option<Ordering>)
    ensures ord.None? ==> forall op: Syntax.BinOp :: op.IsRelational() ==> RelationalResult(op, ord) == Int(0)
    ensures RelationalResult(Syntax.Less, ord) == Int(1) <==> ord == Some(Less)
    ensures RelationalResult(Syntax.Greater, ord) == Int(1) <==> ord == Some(Greater)
    ensures RelationalResult(Syntax.LessEqual, ord) == Int(1) <==>
              RelationalResult(Syntax.Less, ord) == Int(1) || ord == Some(Equal)
    ensures RelationalResult(Syntax.GreaterEqual, ord) == Int(1) <==>
              RelationalResult(Syntax.Greater, ord) == Int(1) || ord == Some(Equal)
    ensures !(RelationalResult(Syntax.Less, ord) == Int(1) && RelationalResult(Syntax.Greater, ord) == Int(1))
  {
  }

  /** `BinOp::Match`: the left operand as text against the right one as a pattern (a regex
      value's pattern, a string's text, or anything else rendered); a pattern that does not
      compile is an error naming it. */
  function MatchOp(host: Host, left: Value, right: Value): (r: Outcome<Value>)
    ensures !r.Exhausted?
    ensures r.Ok? ==> r.value == Int(0) || r.value == Int(1)
  {
    var text := host.ops.toString(left);
    var pat := match right
      case Regex(p) => p
      case Str(s) => s
      case other => host.ops.toString(other);
    match host.regexError(pat)
    case Some(e) => Err("Invalid regex /" + pat + "/: " + e)
    case None => Ok(Truth(host.regexIsMatch(pat, text)))
  }

  /** A binary operator applied to its two evaluated operands (both are always evaluated:
      `and` and `or` do not short-circuit). Only `Match` can fail. */
  function EvalBinary(host: Host, op: Syntax.BinOp, left: Value, right: Value): (r: Outcome<Value>)
    ensures !r.Exhausted?
    ensures r.Err? ==> op.Match?
    ensures op.IsRelational() ==> r == Ok(RelationalResult(op, host.ops.compare(left, right)))
    ensures op.Equal? || op.NotEqual? || op.And? || op.Or? || op.IsRelational() ==>
              r == Ok(Int(0)) || r == Ok(Int(1))
    ensures op.NotEqual? ==> r == Ok(Truth(!host.ops.equals(left, right)))
  {
    var ops := host.ops;
    match op
    case Add => Ok(ops.add(left, right))
    case Subtract => Ok(ops.subtract(left, right))
    case Multiply => Ok(ops.multiply(left, right))
    case Divide => Ok(ops.divide(left, right))
    case Modulo => Ok(ops.modulo(left, right))
    case Equal => Ok(Truth(ops.equals(left, right)))
    case NotEqual => Ok(Truth(!ops.equals(left, right)))
    case Less => Ok(RelationalResult(op, ops.compare(left, right)))
    case LessEqual => Ok(RelationalResult(op, ops.compare(left, right)))
    case Greater => Ok(RelationalResult(op, ops.compare(left, right)))
    case GreaterEqual => Ok(RelationalResult(op, ops.compare(left, right)))
    case And => Ok(Truth(ops.isTruthy(left) && ops.isTruthy(right)))
    case Or => Ok(Truth(ops.isTruthy(left) || ops.isTruthy(right)))
    case Match => MatchOp(host, left, right)
  }

  /** `==` and `!=` always disagree. */
  lemma EqualNotEqualComplement(host: Host, left: Value, right: Value)
    ensures EvalBinary(host, Syntax.Equal, left, right).Ok? && EvalBinary(host, Syntax.NotEqual, left, right).Ok?
    ensures EvalBinary(host, Syntax.Equal, left, right).value.n + EvalBinary(host, Syntax.NotEqual, left, right).value.n == 1
  {
  }

  /** A unary operator applied to its evaluated operand. Negation is on the operand's i64:
      negating i64::MIN wraps back to i64::MIN, as two's complement negation does. */
  function EvalUnary(ops: ValueOps, op: Syntax.UnaryOp, v: Value): (r: Value)
    ensures op.Not? ==> r == Int(0) || r == Int(1)
    ensures op.Not? ==> (r == Int(1) <==> !ops.isTruthy(v))
    ensures op.Negate? ==> r.Int? && IsI64(r.n)
    ensures op.Negate? && ops.toInt(v) != I64_MIN ==> r == Int(-ops.toInt(v))
    ensures op.Negate? && ops.toInt(v) == I64_MIN ==> r == Int(I64_MIN)
  {
    match op
    case Not => Truth(!ops.isTruthy(v))
    case Negate => var n: int := ops.toInt(v); Int(Wrap64(-n))
  }

  /** An integer reduced to i64 the way two's complement arithmetic wraps it. */
  function Wrap64(n: int): (r: int)
    ensures IsI64(r)
    ensures IsI64(n) ==> r == n
    ensures (r - n) % USIZE_MODULUS == 0
  {
    (n - I64_MIN) % USIZE_MODULUS + I64_MIN
  }

  // ---------------------------------------------------------------------------------
  // Builtins

  /** The `number` builtin: an integer passes through; a string is trimmed and parsed as a
      whole as an i64 (anything else in it, or an overflow, gives `0`); any other value,
      or no argument, gives `0`. */
  function NumberOf(arg: Option<Value>): (r: Value)
    ensures r.Int?
    ensures !(arg.Some? && arg.value.Int?) ==> IsI64(r.n)
    ensures arg.Some? && arg.value.Int? ==> r == arg.value
    ensures arg.None? || arg.value.Array? || arg.value.Nil? || arg.value.Regex? ==> r == Int(0)
  {
    match arg
    case None => Int(0)
    case Some(Int(n)) => Int(n)
    case Some(Str(s)) =>
      (match ParseI64(Trim(s))
       case Some(n) => Int(n)
       case None => Int(0))
    case Some(_) => Int(0)
  }

  /** `number` reads back what `printf` renders for an i64, also with whitespace around it. */
  lemma NumberOfDecimal(n: int, pre: string, post: string)
    requires IsI64(n)
    requires forall i :: 0 <= i < |pre| ==> IsWhitespace(pre[i])
    requires forall i :: 0 <= i < |post| ==> IsWhitespace(post[i])
    ensures NumberOf(Some(Str(pre + DecimalString(n) + post))) == Int(n)
  {
    var d := DecimalString(n);
    assert !IsWhitespace(d[0]) by {
      if n >= 0 { assert IsDigit(NatDigits(n)[0]); } else { assert d[0] == '-'; }
    }
    assert !IsWhitespace(d[|d| - 1]) by {
      if n >= 0 {
        assert IsDigit(NatDigits(n)[|d| - 1]);
      } else {
        assert d[|d| - 1] == NatDigits(-n)[|NatDigits(-n)| - 1];
        assert IsDigit(NatDigits(-n)[|NatDigits(-n)| - 1]);
      }
    }
    TrimPadded(pre, d, post);
    ParseDecimalRoundTrip(n);
  }

  /** `number` parses the whole trimmed text, not a leading integer: a character other
      than a digit anywhere after the optional leading sign makes the result `0`. */
  lemma NumberOfTrailingGarbage(s: string, i: nat)
    requires i < |Trim(s)| && !IsDigit(Trim(s)[i])
    requires i > 0 || (Trim(s)[0] != '-' && Trim(s)[0] != '+')
    ensures NumberOf(Some(Str(s))) == Int(0)
  {
    ParseI64Rejects(Trim(s), i);
  }

  /** `"12abc"` gives `0`, and so does a lone sign. */
  lemma NumberOfExamples()
    ensures NumberOf(Some(Str("12abc"))) == Int(0)
    ensures NumberOf(Some(Str("+"))) == Int(0)
  {
    assert !IsWhitespace("12abc"[0]) && !IsWhitespace("12abc"[4]);
    TrimUnpadded("12abc");
    NumberOfTrailingGarbage("12abc", 2);
    TrimUnpadded("+");
  }

  /** A numeral past the i64 range reads as `0`. */
  lemma NumberOfTooBig(s: string)
    requires s != [] && AllDigits(s) && DigitsValue(s) > I64_MAX
    ensures NumberOf(Some(Str(s))) == Int(0)
  {
    TrimUnpadded(s);
  }

  /** The `len`/`strlen` builtin: the element count of an array, the UTF-8 byte count of a
      string, `0` for anything else or no argument. */
  function LenOf(arg: Option<Value>): (r: Value)
    ensures r.Int? && r.n >= 0
    ensures arg.Some? && arg.value.Array? ==> r == Int(|arg.value.elems|)
    ensures arg.Some? && arg.value.Str? ==> |arg.value.s| <= r.n <= 4 * |arg.value.s|
    ensures arg.None? || !(arg.value.Array? || arg.value.Str?) ==> r == Int(0)
  {
    match arg
    case Some(Str(s)) => Int(Utf8Len(s))
    case Some(Array(elems)) => Int(|elems|)
    case _ => Int(0)
  }

  /** `len` of a string counts bytes: `"héllo"` has five characters and six bytes. */
  lemma LenCountsBytes()
    ensures LenOf(Some(Str("héllo"))) == Int(6)
    ensures LenOf(Some(Str("hello"))) == Int(5)
  {
  }

  /** The builtin called `name` on its first argument, if any (later arguments are never
      evaluated). `sleep` yields `Nil`; how long it blocks is not modelled. */
  function Builtin(host: Host, name: string, arg: Option<Value>): (r: Value)
    requires Syntax.IsBuiltin(name)
    ensures name == "len" || name == "strlen" ==> r == LenOf(arg)
    ensures name == "number" ==> r == NumberOf(arg)
    ensures name == "shell" || name == "lower" || name == "upper" ==> r.Str?
    ensures name == "sleep" ==> r == Nil
  {
    if name == "len" || name == "strlen" then LenOf(arg)
    else if name == "number" then NumberOf(arg)
    else if name == "shell" then
      match arg
      case None => Str("")
      case Some(v) =>
        match host.shell(host.ops.toString(v))
        case Some(out) => Str(TrimShellOutput(out))
        case None => Str("")
    else if name == "lower" then
      match arg
      case None => Str("")
      case Some(v) => Str(host.lowercase(host.ops.toString(v)))
    else if name == "upper" then
      match arg
      case None => Str("")
      case Some(v) => Str(host.uppercase(host.ops.toString(v)))
    else Nil
  }

  // ---------------------------------------------------------------------------------
  // Substitution

  /** The inline flag group built from the substitution flags: `i`, `m`, `s` in that order,
      each once, when present. */
  function RegexMode(flags: string): (mode: string)
    ensures |mode| <= 3
    ensures forall c :: c in mode <==> c in "ims" && c in flags
    ensures forall i, j :: 0 <= i < j < |mode| ==> mode[i] != mode[j]
  {
    (if 'i' in flags then "i" else "") + (if 'm' in flags then "m" else "") + (if 's' in flags then "s" else "")
  }

  /** The pattern handed to the regex engine: `(?mode)pat`, or `pat` when no mode flag is set. */
  function SubstPattern(pat: string, flags: string): (p: string)
    ensures RegexMode(flags) == [] ==> p == pat
    ensures RegexMode(flags) != [] ==> p == "(?" + RegexMode(flags) + ")" + pat
  {
    var mode := RegexMode(flags);
    if mode == [] then pat else "(?" + mode + ")" + pat
  }

  /** `Expr::SubstCall` on the evaluated input text: replace every match when the flags hold
      `g`, the first otherwise; a pattern that does not compile is an error naming the
      pattern as written (without the flag group). */
  function Substitute(host: Host, pat: string, repl: string, flags: string, src: string): (r: Outcome<Value>)
    ensures !r.Exhausted?
    ensures r.Err? <==> host.regexError(SubstPattern(pat, flags)).Some?
    ensures r.Err? ==> r.msg == "Invalid regex /" + pat + "/: " + host.regexError(SubstPattern(pat, flags)).value
    ensures r.Ok? ==> r.value == Str(host.regexReplace(SubstPattern(pat, flags), src, repl, 'g' in flags))
  {
    var p := SubstPattern(pat, flags);
    match host.regexError(p)
    case Some(e) => Err("Invalid regex /" + pat + "/: " + e)
    case None => Ok(Str(host.regexReplace(p, src, repl, 'g' in flags)))
  }

  // ---------------------------------------------------------------------------------
  // printf

  /** How `printf` renders one argument (its own rules, not `to_string`). */
  function Render(v: Value): string {
    match v
    case Int(n) => DecimalString(n)
    case Str(s) => s
    case Array(elems) => "[Array(" + DecimalString(|elems|) + ")]"
    case Regex(p) => "/" + p + "/"
    case Nil => ""
  }

  function RenderAll(vals: seq<Value>): string {
    if vals == [] then [] else RenderAll(vals[..|vals| - 1]) + Render(vals[|vals| - 1])
  }

  /** The text `printf` builds: the format, each rendered argument, then `\n` and `\t`
      escapes replaced by a newline and a tab. No escape of either kind is left, and text
      without a backslash comes out as it went in. */
  function PrintfText(format: string, vals: seq<Value>): (out: string)
    ensures forall i :: 0 <= i < |out| ==> !OccursAt(out, "\\n", i)
    ensures forall i :: 0 <= i < |out| ==> !OccursAt(out, "\\t", i)
    ensures NoBackslash(format + RenderAll(vals)) ==> out == format + RenderAll(vals)
  {
    var raw := format + RenderAll(vals);
    var once := ReplaceAll(raw, "\\n", "\n");
    assert "\\n" == ['\\', 'n'] && "\\t" == ['\\', 't'] && "\n" == ['\n'] && "\t" == ['\t'];
    ReplaceEscapeComplete(raw, 'n', '\n');
    ReplaceKeepsEscapeFree(once, 't', 'n', '\t');
    ReplaceEscapeComplete(once, 't', '\t');
    assert NoBackslash(raw) ==> ReplaceAll(once, "\\t", "\t") == raw by {
      if NoBackslash(raw) {
        NoBackslashNoEscape(raw, 'n');
        NoBackslashNoEscape(raw, 't');
      }
    }
    ReplaceAll(once, "\\t", "\t")
  }

  /** A `\n` escape between two pieces of text without backslashes becomes a newline. */
  lemma PrintfNewline(a: string, b: string)
    requires NoBackslash(a) && NoBackslash(b)
    ensures PrintfText(a + "\\n" + b, []) == a + "\n" + b
  {
    var raw := a + "\\n" + b;
    assert "\\n" == ['\\', 'n'] && "\n" == ['\n'];
    assert raw + RenderAll([]) == raw;
    NoBackslashNoEscape(b, 'n');
    OneEscape(a, b, 'n', 't');
    ReplaceAllLeftmost(a, b, "\\n", "\n");
    assert ReplaceAll(b, "\\n", "\n") == b;
    var once := a + "\n" + b;
    assert ReplaceAll(raw, "\\n", "\n") == once;
    NoBackslashJoin(a, '\n', b);
    NoBackslashNoEscape(once, 't');
    assert ReplaceAll(once, "\\t", "\t") == once;
  }

  /** A `\t` escape between two pieces of text without backslashes becomes a tab. */
  lemma PrintfTab(a: string, b: string)
    requires NoBackslash(a) && NoBackslash(b)
    ensures PrintfText(a + "\\t" + b, []) == a + "\t" + b
  {
    var raw := a + "\\t" + b;
    assert "\\t" == ['\\', 't'] && "\t" == ['\t'];
    assert raw + RenderAll([]) == raw;
    OneEscape(a, b, 't', 'n');
    assert ReplaceAll(raw, "\\n", "\n") == raw;
    NoBackslashNoEscape(b, 't');
    ReplaceAllLeftmost(a, b, "\\t", "\t");
    assert ReplaceAll(b, "\\t", "\t") == b;
  }

  /** What reaches standard output: the text, plus a newline unless it already ends in one. */
  function Emitted(out: string): (e: string)
    ensures EndsWith(e, '\n')
    ensures |e| >= |out| && e[..|out|] == out
    ensures |e| <= |out| + 1
  {
    if EndsWith(out, '\n') then out else out + "\n"
  }
}
