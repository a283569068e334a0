/** Printing expressions with as few parentheses as the precedences allow, and reading them back. */
module Printing {
  import opened Options
  import opened Tristate
  import opened Expressions

  /** The members of `enum expr_type` that occur. */
  datatype ExprType = NoneType | OrType | AndType | NotType | EqualType | UnequalType | SymbolType

  function TypeOf(e: Expr): ExprType {
    match e
    case Symbol(_) => SymbolType
    case Not(_) => NotType
    case Bin(op, _, _) => if op.OpOr? then OrType else AndType
    case Equal(_, _) => EqualType
    case Unequal(_, _) => UnequalType
  }

  /** Positive when an operand of type t2 needs parentheses below a node of type t1. */
  function CompareType(t1: ExprType, t2: ExprType): int {
    if t1 == t2 then 0
    else if (t1.EqualType? || t1.UnequalType?) && t2.NotType? then 1
    else if (t1.EqualType? || t1.UnequalType? || t1.NotType?) && t2.AndType? then 1
    else if (t1.EqualType? || t1.UnequalType? || t1.NotType? || t1.AndType?) && t2.OrType? then 1
    else if !t1.NoneType? && !t1.SymbolType? && t2.NoneType? then 1
    else -1
  }

  function Name(s: Sym): string {
    match s
    case YesSym => "y"
    case ModSym => "m"
    case NoSym => "n"
    case ConstSym(t) => t
    case NamedSym(n, _) => n
  }

  /** The pieces of text handed to the output function. */
  datatype Token = Word(name: string) | Open | Close | Bang | EqualSign | UnequalSign | OrSign | AndSign {
    function Text(): string {
      match this
      case Word(n) => n
      case Open => "("
      case Close => ")"
      case Bang => "!"
      case EqualSign => "="
      case UnequalSign => "!="
      case OrSign => " || "
      case AndSign => " && "
    }
  }

  function Print(e: Expr, prev: ExprType): seq<Token> {
    var body :=
      match e
      case Symbol(s) => [Word(Name(s))]
      case Not(a) => [Bang] + Print(a, NotType)
      case Equal(l, r) => [Word(Name(l)), EqualSign, Word(Name(r))]
      case Unequal(l, r) => [Word(Name(l)), UnequalSign, Word(Name(r))]
      case Bin(op, l, r) => Print(l, TypeOf(e)) + [Sign(op)] + Print(r, TypeOf(e));
    if CompareType(prev, TypeOf(e)) > 0 then [Open] + body + [Close] else body
  }

  function Sign(op: Op): Token {
    if op.OpOr? then OrSign else AndSign
  }

  /** A null expression prints as y. */
  function PrintOpt(e: Option<Expr>): seq<Token> {
    if e.None? then [Word("y")] else Print(e.value, NoneType)
  }

  /** The strings handed to the output function, in order. */
  function Texts(ts: seq<Token>): seq<string> {
    seq(|ts|, i requires 0 <= i < |ts| => ts[i].Text())
  }

  // ---------- the reference reader ----------

  datatype Parse = Fail | Parsed(e: Expr, rest: seq<Token>)

  /** The first token is t. */
  predicate Starts(ts: seq<Token>, t: Token) {
    |ts| > 0 && ts[0] == t
  }

  /** A disjunction of conjunctions of negations of atoms; `lookup` finds the symbol of a name. */
  function ParseTree(op: Op, ts: seq<Token>, lookup: string -> Sym): (p: Parse)
    ensures p.Parsed? ==> |p.rest| < |ts|
    decreases |ts|, if op.OpOr? then 2 else 1
  {
    var p := if op.OpOr? then ParseTree(OpAnd, ts, lookup) else ParseUnary(ts, lookup);
    if p.Parsed? && Starts(p.rest, if op.OpOr? then OrSign else AndSign) then
      var q := ParseTree(op, p.rest[1..], lookup);
      if q.Parsed? then Parsed(Bin(op, p.e, q.e), q.rest) else Fail
    else p
  }

  function ParseUnary(ts: seq<Token>, lookup: string -> Sym): (p: Parse)
    ensures p.Parsed? ==> |p.rest| < |ts|
    decreases |ts|, 0
  {
    if ts == [] then Fail
    else
      match ts[0]
      case Bang =>
        var p := ParseUnary(ts[1..], lookup);
        if p.Parsed? then Parsed(Not(p.e), p.rest) else Fail
      case Open =>
        var p := ParseTree(OpOr, ts[1..], lookup);
        if p.Parsed? && Starts(p.rest, Close) then Parsed(p.e, p.rest[1..]) else Fail
      case Word(n) =>
        if |ts| > 2 && ts[1] == EqualSign && ts[2].Word? then
          Parsed(Equal(lookup(n), lookup(ts[2].name)), ts[3..])
        else if |ts| > 2 && ts[1] == UnequalSign && ts[2].Word? then
          Parsed(Unequal(lookup(n), lookup(ts[2].name)), ts[3..])
        else Parsed(Symbol(lookup(n)), ts[1..])
      case _ => Fail
  }

  // ---------- what reading recovers ----------

  /** The `op` tree x followed by the operands y, grouped to the right. */
  function Append(op: Op, x: Expr, y: Expr): Expr {
    if IsOp(op, x) then Bin(op, x.left, Append(op, x.right, y)) else Bin(op, x, y)
  }

  /** The same expression with every AND and OR grouped to the right. */
  function Regroup(e: Expr): Expr {
    match e
    case Bin(op, l, r) => Append(op, Regroup(l), Regroup(r))
    case Not(a) => Not(Regroup(a))
    case _ => e
  }

  lemma {:induction false} AppendExact(op: Op, x: Expr, y: Expr, v: Valuation)
    ensures Eval(Append(op, x, y), v) == op.Apply(Eval(x, v), Eval(y, v))
  {
    if IsOp(op, x) {
      AppendExact(op, x.right, y, v);
      Associative(op, Eval(x.left, v), Eval(x.right, v), Eval(y, v));
    }
  }

  lemma {:induction false} RegroupExact(e: Expr, v: Valuation)
    ensures Eval(Regroup(e), v) == Eval(e, v)
  {
    match e
    case Bin(op, l, r) =>
      RegroupExact(l, v);
      RegroupExact(r, v);
      AppendExact(op, Regroup(l), Regroup(r), v);
    case Not(a) => RegroupExact(a, v);
    case _ =>
  }

  /** The symbol's name finds the symbol again. */
  predicate Readable(s: Sym, lookup: string -> Sym) {
    lookup(Name(s)) == s
  }

  predicate AllReadable(e: Expr, lookup: string -> Sym) {
    match e
    case Symbol(s) => Readable(s, lookup)
    case Not(a) => AllReadable(a, lookup)
    case Bin(_, l, r) => AllReadable(l, lookup) && AllReadable(r, lookup)
    case Equal(l, r) => Readable(l, lookup) && Readable(r, lookup)
    case Unequal(l, r) => Readable(l, lookup) && Readable(r, lookup)
  }

  /** What follows cannot be taken for a continuation of an atom. */
  predicate EndsAtom(rest: seq<Token>) {
    !Starts(rest, EqualSign) && !Starts(rest, UnequalSign)
  }

  /** What follows cannot be taken for a continuation of an `op` tree. */
  predicate EndsTree(op: Op, rest: seq<Token>) {
    EndsAtom(rest) && !Starts(rest, AndSign) && (op.OpOr? ==> !Starts(rest, OrSign))
  }

  function OpType(op: Op): ExprType {
    if op.OpOr? then OrType else AndType
  }

  /** The reader of the operands of an `op` tree. */
  function ParseOperand(op: Op, ts: seq<Token>, lookup: string -> Sym): Parse {
    if op.OpOr? then ParseTree(OpAnd, ts, lookup) else ParseUnary(ts, lookup)
  }

  lemma ParseStop(op: Op, ts: seq<Token>, lookup: string -> Sym, e: Expr, rest: seq<Token>)
    requires ParseOperand(op, ts, lookup) == Parsed(e, rest) && !Starts(rest, Sign(op))
    ensures ParseTree(op, ts, lookup) == Parsed(e, rest)
  {
  }

  lemma ParseContinue(op: Op, ts: seq<Token>, lookup: string -> Sym, e: Expr, more: seq<Token>, y: Expr,
                      rest: seq<Token>)
    requires ParseOperand(op, ts, lookup) == Parsed(e, [Sign(op)] + more)
    requires ParseTree(op, more, lookup) == Parsed(y, rest)
    ensures ParseTree(op, ts, lookup) == Parsed(Bin(op, e, y), rest)
  {
    assert ([Sign(op)] + more)[1..] == more;
  }

  lemma ParseParens(inner: seq<Token>, rest: seq<Token>, lookup: string -> Sym, e: Expr)
    requires ParseTree(OpOr, inner + ([Close] + rest), lookup) == Parsed(e, [Close] + rest)
    ensures ParseUnary([Open] + inner + [Close] + rest, lookup) == Parsed(e, rest)
  {
    var ts := [Open] + inner + [Close] + rest;
    assert ts[1..] == inner + ([Close] + rest);
    assert ([Close] + rest)[1..] == rest;
  }

  lemma ParseBang(ts: seq<Token>, lookup: string -> Sym, e: Expr, rest: seq<Token>)
    requires ParseUnary(ts, lookup) == Parsed(e, rest)
    ensures ParseUnary([Bang] + ts, lookup) == Parsed(Not(e), rest)
  {
    assert ([Bang] + ts)[1..] == ts;
  }

  lemma ParseAtom(e: Expr, rest: seq<Token>, lookup: string -> Sym)
    requires AllReadable(e, lookup) && EndsAtom(rest) && (e.Symbol? || e.Equal? || e.Unequal?)
    ensures ParseUnary(Print(e, NotType) + rest, lookup) == Parsed(e, rest)
  {
    var ts := Print(e, NotType) + rest;
    if e.Symbol? {
      assert ts[1..] == rest;
    } else {
      assert ts[3..] == rest;
    }
  }

  lemma PrintNode(op: Op, l: Expr, r: Expr, rest: seq<Token>)
    ensures Print(Bin(op, l, r), OpType(op)) == Print(l, OpType(op)) + [Sign(op)] + Print(r, OpType(op))
    ensures Print(Bin(op, l, r), OpType(op)) + rest == Print(l, OpType(op)) + [Sign(op)] + (Print(r, OpType(op)) + rest)
  {
    PrintBin(op, l, r);
    Reassociate(Print(l, OpType(op)), Sign(op), Print(r, OpType(op)), rest);
  }

  lemma PrintBin(op: Op, l: Expr, r: Expr)
    ensures Print(Bin(op, l, r), OpType(op)) == Print(l, OpType(op)) + [Sign(op)] + Print(r, OpType(op))
  {
  }

  lemma Reassociate(a: seq<Token>, t: Token, b: seq<Token>, c: seq<Token>)
    ensures a + [t] + b + c == a + [t] + (b + c)
  {
  }

  lemma PrintSign(e: Expr, op: Op, ts: seq<Token>)
    ensures Print(e, OpType(op)) + [Sign(op)] + ts == Print(e, OpType(op)) + ([Sign(op)] + ts)
  {
  }

  /** An operand that is not itself an `op` tree prints the same one level further down. */
  lemma PrintDown(op: Op, e: Expr)
    requires !IsOp(op, e)
    ensures Print(e, OpType(op)) == Print(e, if op.OpOr? then AndType else NotType)
  {
  }

  lemma PrintBang(a: Expr, rest: seq<Token>)
    ensures Print(Not(a), NotType) + rest == [Bang] + (Print(a, NotType) + rest)
  {
  }

  lemma PrintParens(e: Expr)
    requires e.Bin?
    ensures Print(e, NotType) == [Open] + Print(e, OpType(e.op)) + [Close]
  {
  }

  /** A printed operand of ! is read back as one unit, whatever follows it. */
  lemma {:induction false} ReadUnary(e: Expr, rest: seq<Token>, lookup: string -> Sym)
    requires AllReadable(e, lookup) && EndsAtom(rest)
    ensures ParseUnary(Print(e, NotType) + rest, lookup) == Parsed(Regroup(e), rest)
    decreases Size(e), 0
  {
    match e
    case Not(a) =>
      ReadUnary(a, rest, lookup);
      ParseBang(Print(a, NotType) + rest, lookup, Regroup(a), rest);
      PrintBang(a, rest);
    case Bin(op, l, r) =>
      ReadBody(e, [Close] + rest, lookup);
      PrintParens(e);
      ParseParens(Print(e, OpType(op)), rest, lookup, Regroup(e));
      assert Print(e, NotType) + rest == [Open] + Print(e, OpType(op)) + [Close] + rest;
    case _ =>
      ParseAtom(e, rest, lookup);
  }

  /** The text of an AND or OR without parentheses is read back by the reader of disjunctions. */
  lemma {:induction false} ReadBody(e: Expr, rest: seq<Token>, lookup: string -> Sym)
    requires AllReadable(e, lookup) && EndsTree(OpOr, rest) && e.Bin?
    ensures ParseTree(OpOr, Print(e, OpType(e.op)) + rest, lookup) == Parsed(Regroup(e), rest)
    decreases Size(e), 0, 1
  {
    var op, l, r := e.op, e.left, e.right;
    var more := Print(r, OpType(op)) + rest;
    ReadTree(op, r, rest, lookup);
    ReadContinued(op, l, more, lookup, Regroup(r), rest);
    PrintNode(op, l, r, rest);
    if op.OpAnd? {
      ParseStop(OpOr, Print(e, AndType) + rest, lookup, Regroup(e), rest);
    }
  }

  /** An operand of an `op` node is read back by the reader of `op` trees. */
  lemma {:induction false} ReadTree(op: Op, e: Expr, rest: seq<Token>, lookup: string -> Sym)
    requires AllReadable(e, lookup) && EndsTree(op, rest)
    ensures ParseTree(op, Print(e, OpType(op)) + rest, lookup) == Parsed(Regroup(e), rest)
    decreases Size(e), 1, if op.OpOr? then 1 else 0
  {
    if IsOp(op, e) {
      var l, r := e.left, e.right;
      ReadTree(op, r, rest, lookup);
      ReadContinued(op, l, Print(r, OpType(op)) + rest, lookup, Regroup(r), rest);
      PrintNode(op, l, r, rest);
    } else {
      PrintDown(op, e);
      if op.OpOr? {
        ReadTree(OpAnd, e, rest, lookup);
      } else {
        ReadUnary(e, rest, lookup);
      }
      ParseStop(op, Print(e, OpType(op)) + rest, lookup, Regroup(e), rest);
    }
  }

  /** Followed by a sign and more operands, its operands come before those. */
  lemma {:induction false} ReadContinued(op: Op, e: Expr, ts: seq<Token>, lookup: string -> Sym, y: Expr,
                                         rest: seq<Token>)
    requires AllReadable(e, lookup) && ParseTree(op, ts, lookup) == Parsed(y, rest)
    ensures ParseTree(op, Print(e, OpType(op)) + [Sign(op)] + ts, lookup) == Parsed(Append(op, Regroup(e), y), rest)
    decreases Size(e), 1, 2
  {
    var tail := [Sign(op)] + ts;
    var all := Print(e, OpType(op)) + [Sign(op)] + ts;
    PrintSign(e, op, ts);
    if IsOp(op, e) {
      var l, r := e.left, e.right;
      ReadContinued(op, r, ts, lookup, y, rest);
      ReadContinued(op, l, Print(r, OpType(op)) + [Sign(op)] + ts, lookup, Append(op, Regroup(r), y), rest);
      PrintNode(op, l, r, tail);
      PrintSign(r, op, ts);
      AppendAssociative(op, Regroup(l), Regroup(r), y);
    } else {
      PrintDown(op, e);
      RegroupRoot(e);
      if op.OpOr? {
        ReadTree(OpAnd, e, tail, lookup);
      } else {
        ReadUnary(e, tail, lookup);
      }
      ParseContinue(op, all, lookup, Regroup(e), ts, y, rest);
    }
  }

  lemma {:induction false} AppendAssociative(op: Op, x: Expr, y: Expr, z: Expr)
    ensures Append(op, Append(op, x, y), z) == Append(op, x, Append(op, y, z))
  {
    if IsOp(op, x) {
      AppendAssociative(op, x.right, y, z);
    }
  }

  lemma RegroupRoot(e: Expr)
    ensures TypeOf(Regroup(e)) == TypeOf(e)
  {
  }

  /** Reading what was printed returns the expression, up to the grouping of AND and OR. */
  lemma ReadPrinted(e: Expr, lookup: string -> Sym)
    requires AllReadable(e, lookup)
    ensures ParseTree(OpOr, Print(e, NoneType), lookup) == Parsed(Regroup(e), [])
  {
    ReadTree(OpOr, e, [], lookup);
    assert Print(e, OrType) + [] == Print(e, OrType) == Print(e, NoneType);
  }

  /** Names that are not operators keep the texts of a token sequence apart from those of any other. */
  predicate PlainWords(ts: seq<Token>) {
    forall i :: 0 <= i < |ts| && ts[i].Word? ==> !IsOperator(ts[i].name)
  }

  predicate IsOperator(t: string) {
    t == "(" || t == ")" || t == "!" || t == "=" || t == "!=" || t == " || " || t == " && "
  }

  lemma OperatorTextsDiffer(t: Token, u: Token)
    requires !t.Word? && !u.Word? && t.Text() == u.Text()
    ensures t == u
  {
    assert " && "[1] != " || "[1];
    assert |t.Text()| > 0 && t.Text()[0] == u.Text()[0];
  }

  lemma TextsInjective(ts: seq<Token>, us: seq<Token>)
    requires PlainWords(ts) && PlainWords(us) && Texts(ts) == Texts(us)
    ensures ts == us
  {
    assert |Texts(ts)| == |ts| && |Texts(us)| == |us|;
    forall i | 0 <= i < |ts| ensures ts[i] == us[i] {
      assert Texts(ts)[i] == ts[i].Text() && Texts(us)[i] == us[i].Text();
      if !ts[i].Word? && !us[i].Word? {
        OperatorTextsDiffer(ts[i], us[i]);
      }
    }
  }

  /** Expressions that print the same strings differ in grouping only, and so have the same value everywhere. */
  lemma PrintUnambiguous(e: Option<Expr>, f: Option<Expr>, lookup: string -> Sym, v: Valuation)
    requires Readable(YesSym, lookup)
    requires e.Some? ==> AllReadable(e.value, lookup)
    requires f.Some? ==> AllReadable(f.value, lookup)
    requires PlainWords(PrintOpt(e)) && PlainWords(PrintOpt(f))
    requires Texts(PrintOpt(e)) == Texts(PrintOpt(f))
    ensures Regroup(if e.None? then Symbol(YesSym) else e.value) == Regroup(if f.None? then Symbol(YesSym) else f.value)
    ensures EvalOpt(e, v) == EvalOpt(f, v)
  {
    var e', f' := if e.None? then Symbol(YesSym) else e.value, if f.None? then Symbol(YesSym) else f.value;
    TextsInjective(PrintOpt(e), PrintOpt(f));
    ReadPrinted(e', lookup);
    ReadPrinted(f', lookup);
    RegroupExact(e', v);
    RegroupExact(f', v);
  }

  /** Conversely the printed text does not depend on the grouping. */
  lemma {:induction false} PrintRegrouped(e: Expr, prev: ExprType)
    ensures Print(Regroup(e), prev) == Print(e, prev)
  {
    match e
    case Not(a) => PrintRegrouped(a, NotType);
    case Bin(op, l, r) =>
      PrintRegrouped(l, OpType(op));
      PrintRegrouped(r, OpType(op));
      PrintAppend(op, Regroup(l), Regroup(r));
      RegroupRoot(e);
      assert Print(Regroup(e), OpType(op)) == Print(e, OpType(op));
      PrintPrev(e, Regroup(e), OpType(op), prev);
    case _ =>
  }

  lemma {:induction false} PrintAppend(op: Op, x: Expr, y: Expr)
    ensures Print(Append(op, x, y), OpType(op)) == Print(x, OpType(op)) + [Sign(op)] + Print(y, OpType(op))
  {
    if IsOp(op, x) {
      PrintAppend(op, x.right, y);
    }
  }

  lemma PrintPrev(e: Expr, f: Expr, p: ExprType, prev: ExprType)
    requires TypeOf(e) == TypeOf(f) == p && Print(e, p) == Print(f, p)
    ensures Print(e, prev) == Print(f, prev)
  {
    if CompareType(prev, p) > 0 {
      assert Print(e, prev) == [Open] + Print(e, p) + [Close];
      assert Print(f, prev) == [Open] + Print(f, p) + [Close];
    } else {
      assert Print(e, prev) == Print(e, p) && Print(f, prev) == Print(f, p);
    }
  }
}
