/** The text that printing an expression produces, character by character, and reading it back. */
module PrintedText {
  import opened Options
  import opened Tristate
  import opened Expressions
  import opened Printing

  function Concat(texts: seq<string>): string {
    if texts == [] then "" else texts[0] + Concat(texts[1..])
  }

  /** Everything handed to the output function. */
  function Written(e: Option<Expr>): string {
    Concat(Texts(PrintOpt(e)))
  }

  // ---------- the reference lexer ----------

  predicate WordChar(c: char) {
    'A' <= c <= 'Z' || 'a' <= c <= 'z' || '0' <= c <= '9' || c == '_' || c == '-' || c == '/' || c == '.'
  }

  /** How many characters from the start of the text on are those of a word. */
  function WordLength(s: string): (n: nat)
    ensures n <= |s|
  {
    if s != "" && WordChar(s[0]) then 1 + WordLength(s[1..]) else 0
  }

  predicate StartsWith(s: string, t: string) {
    t <= s
  }

  function Cons(t: Token, ts: Option<seq<Token>>): Option<seq<Token>> {
    if ts.Some? then Some([t] + ts.value) else None
  }

  /**
   * The tokens of a text on one line without quotes and comments. The longest match is taken, and characters that
   * start no token are skipped. Keywords are no tokens of expressions.
   */
  function Lex(s: string): Option<seq<Token>>
    decreases |s|
  {
    if s == "" then Some([])
    else if WordChar(s[0]) then
      var n := WordLength(s);
      if s[..n] == "if" || s[..n] == "on" then None
      else if s[..n] == "---" then Lex(s[n..])
      else Cons(Word(s[..n]), Lex(s[n..]))
    else if StartsWith(s, "&&") then Cons(AndSign, Lex(s[2..]))
    else if StartsWith(s, "||") then Cons(OrSign, Lex(s[2..]))
    else if StartsWith(s, "!=") then Cons(UnequalSign, Lex(s[2..]))
    else if s[0] == '!' then Cons(Bang, Lex(s[1..]))
    else if s[0] == '=' then Cons(EqualSign, Lex(s[1..]))
    else if s[0] == '(' then Cons(Open, Lex(s[1..]))
    else if s[0] == ')' then Cons(Close, Lex(s[1..]))
    else if s[0] in "\n\\\"\'#" then None
    else Lex(s[1..])
  }

  /** The expression that is written. */
  function ReadText(s: string, lookup: string -> Sym): Option<Expr> {
    var ts := Lex(s);
    if ts.None? then None
    else
      var p := ParseTree(OpOr, ts.value, lookup);
      if p.Parsed? && p.rest == [] then Some(p.e) else None
  }

  // ---------- reading what was written ----------

  /** The lexer takes the name for a word. */
  predicate PlainName(n: string) {
    && n != "" && (forall i :: 0 <= i < |n| ==> WordChar(n[i]))
    && n != "if" && n != "on" && n != "---"
  }

  predicate PlainNames(e: Expr) {
    match e
    case Symbol(s) => PlainName(Name(s))
    case Not(a) => PlainNames(a)
    case Bin(_, l, r) => PlainNames(l) && PlainNames(r)
    case Equal(l, r) => PlainName(Name(l)) && PlainName(Name(r))
    case Unequal(l, r) => PlainName(Name(l)) && PlainName(Name(r))
  }

  predicate PlainToken(t: Token) {
    t.Word? ==> PlainName(t.name)
  }

  /** The text of u does not make the text of t before it longer. */
  predicate Apart(t: Token, u: Token) {
    !(t.Word? && u.Word?) && !(t.Bang? && u.EqualSign?)
  }

  /** The texts of the tokens stay apart when they are written one after another. */
  predicate Lexable(ts: seq<Token>) {
    && (forall i :: 0 <= i < |ts| ==> PlainToken(ts[i]))
    && forall i :: 0 < i < |ts| ==> Apart(ts[i - 1], ts[i])
  }

  lemma {:induction false} WordEnds(n: string, rest: string)
    requires forall i :: 0 <= i < |n| ==> WordChar(n[i])
    requires rest == "" || !WordChar(rest[0])
    ensures WordLength(n + rest) == |n|
  {
    if n == "" {
      assert n + rest == rest;
    } else {
      assert (n + rest)[0] == n[0] && (n + rest)[1..] == n[1..] + rest;
      WordEnds(n[1..], rest);
    }
  }

  lemma LexWord(n: string, rest: string)
    requires PlainName(n) && (rest == "" || !WordChar(rest[0]))
    ensures Lex(n + rest) == Cons(Word(n), Lex(rest))
  {
    WordEnds(n, rest);
    assert (n + rest)[0] == n[0] && (n + rest)[..|n|] == n && (n + rest)[|n|..] == rest;
  }

  lemma LexSign(t: Token, text: string, rest: string)
    requires !t.Word? && text == t.Text() && (t.Bang? ==> rest == "" || rest[0] != '=')
    ensures Lex(text + rest) == Cons(t, Lex(rest))
  {
    match t
    case AndSign => LexSpaced(text, "&&", t, rest);
    case OrSign => LexSpaced(text, "||", t, rest);
    case UnequalSign => LexUnequal(text, rest);
    case Bang => LexBang(text, rest);
    case EqualSign => LexSingle(text, t, rest);
    case Open => LexSingle(text, t, rest);
    case Close => LexSingle(text, t, rest);
  }

  lemma LexSingle(text: string, t: Token, rest: string)
    requires (text == "=" && t == EqualSign) || (text == "(" && t == Open) || (text == ")" && t == Close)
    ensures Lex(text + rest) == Cons(t, Lex(rest))
  {
    var s := text + rest;
    assert s[0] == text[0] && s[1..] == rest;
  }

  lemma LexBang(text: string, rest: string)
    requires text == "!" && (rest == "" || rest[0] != '=')
    ensures Lex(text + rest) == Cons(Bang, Lex(rest))
  {
    var s := text + rest;
    assert s[0] == '!' && s[1..] == rest;
    assert !StartsWith(s, "!=") by { assert rest != "" ==> s[1] == rest[0]; }
  }

  lemma LexUnequal(text: string, rest: string)
    requires text == "!="
    ensures Lex(text + rest) == Cons(UnequalSign, Lex(rest))
  {
    var s := text + rest;
    assert s[0] == '!' && s[..2] == "!=" && s[2..] == rest;
  }

  lemma LexSpaced(text: string, sign: string, t: Token, rest: string)
    requires text == " " + sign + " " && ((sign == "&&" && t == AndSign) || (sign == "||" && t == OrSign))
    ensures Lex(text + rest) == Cons(t, Lex(rest))
  {
    var s, r := text + rest, " " + rest;
    assert s[0] == ' ' && s[1..] == sign + r;
    LexPair(sign, t, r);
    assert r[0] == ' ' && r[1..] == rest;
  }

  lemma LexPair(sign: string, t: Token, rest: string)
    requires (sign == "&&" && t == AndSign) || (sign == "||" && t == OrSign)
    ensures Lex(sign + rest) == Cons(t, Lex(rest))
  {
    var s := sign + rest;
    assert s[0] == sign[0] && s[..2] == sign && s[2..] == rest;
  }

  lemma {:induction false} LexTexts(ts: seq<Token>)
    requires Lexable(ts)
    ensures Lex(Concat(Texts(ts))) == Some(ts)
  {
    if ts != [] {
      var t, rest := ts[0], ts[1..];
      LexTexts(rest);
      assert Texts(ts)[1..] == Texts(rest);
      FirstChar(rest, t);
      if t.Word? {
        LexWord(t.name, Concat(Texts(rest)));
      } else {
        LexSign(t, t.Text(), Concat(Texts(rest)));
      }
      assert ts == [t] + rest;
    }
  }

  /** What is written behind a token does not continue it. */
  lemma FirstChar(rest: seq<Token>, t: Token)
    requires Lexable(rest) && (rest != [] ==> Apart(t, rest[0]))
    ensures var s := Concat(Texts(rest));
            s == "" || ((t.Word? ==> !WordChar(s[0])) && (t.Bang? ==> s[0] != '='))
  {
    if rest != [] {
      var s := Concat(Texts(rest));
      assert PlainToken(rest[0]);
      assert Texts(rest)[0] == rest[0].Text() && |rest[0].Text()| > 0;
      assert s[0] == rest[0].Text()[0];
    }
  }

  lemma LexableJoin(a: seq<Token>, b: seq<Token>)
    requires Lexable(a) && Lexable(b) && a != [] && b != [] && Apart(a[|a| - 1], b[0])
    ensures Lexable(a + b)
  {
  }

  /** A printed expression starts like an operand and ends like one. */
  predicate OperandLike(ts: seq<Token>) {
    && ts != [] && (ts[0].Word? || ts[0].Open? || ts[0].Bang?)
    && (ts[|ts| - 1].Word? || ts[|ts| - 1].Close?)
  }

  lemma LexableParens(ts: seq<Token>)
    requires Lexable(ts) && OperandLike(ts)
    ensures Lexable([Open] + ts + [Close]) && OperandLike([Open] + ts + [Close])
  {
    LexableJoin([Open], ts);
    LexableJoin([Open] + ts, [Close]);
  }

  lemma LexableBin(a: seq<Token>, op: Op, b: seq<Token>)
    requires Lexable(a) && OperandLike(a) && Lexable(b) && OperandLike(b)
    ensures Lexable(a + [Sign(op)] + b) && OperandLike(a + [Sign(op)] + b)
  {
    LexableJoin(a, [Sign(op)]);
    LexableJoin(a + [Sign(op)], b);
  }

  lemma LexableComparison(l: Sym, sign: Token, r: Sym)
    requires PlainName(Name(l)) && PlainName(Name(r)) && (sign.EqualSign? || sign.UnequalSign?)
    ensures Lexable([Word(Name(l)), sign, Word(Name(r))]) && OperandLike([Word(Name(l)), sign, Word(Name(r))])
  {
  }

  /** What is printed for the expression itself, without parentheses around it. */
  lemma {:induction false} PrintLexable(e: Expr, prev: ExprType)
    requires PlainNames(e)
    ensures Lexable(Print(e, prev)) && OperandLike(Print(e, prev))
    decreases e, 1
  {
    PrintLexableBare(e);
    PrintPrev(e, e, TypeOf(e), prev);
    if CompareType(prev, TypeOf(e)) > 0 {
      LexableParens(Print(e, TypeOf(e)));
      assert Print(e, prev) == [Open] + Print(e, TypeOf(e)) + [Close];
    } else {
      assert Print(e, prev) == Print(e, TypeOf(e));
    }
  }

  lemma {:induction false} PrintLexableBare(e: Expr)
    requires PlainNames(e)
    ensures Lexable(Print(e, TypeOf(e))) && OperandLike(Print(e, TypeOf(e)))
    decreases e, 0
  {
    match e
    case Symbol(s) =>
    case Not(a) =>
      PrintLexable(a, NotType);
      LexableJoin([Bang], Print(a, NotType));
    case Bin(op, l, r) =>
      PrintLexable(l, OpType(op));
      PrintLexable(r, OpType(op));
      PrintBin(op, l, r);
      LexableBin(Print(l, OpType(op)), op, Print(r, OpType(op)));
    case Equal(l, r) => LexableComparison(l, EqualSign, r);
    case Unequal(l, r) => LexableComparison(l, UnequalSign, r);
  }

  /** Reading the text that was written returns the expression, up to the grouping of AND and OR. */
  lemma ReadWritten(e: Expr, lookup: string -> Sym)
    requires AllReadable(e, lookup) && PlainNames(e)
    ensures ReadText(Written(Some(e)), lookup) == Some(Regroup(e))
  {
    PrintLexable(e, NoneType);
    LexTexts(Print(e, NoneType));
    ReadPrinted(e, lookup);
  }

  /** No condition reads back as y. */
  lemma ReadWrittenNone(lookup: string -> Sym)
    ensures Written(None) == "y" && ReadText("y", lookup) == Some(Symbol(lookup("y")))
  {
    assert Texts([Word("y")]) == ["y"];
    assert Concat(["y"]) == "y" + Concat([]);
    LexWord("y", "");
    assert "y" + "" == "y";
    assert Lex("y") == Some([Word("y")] + []);
  }

  /** So expressions with the same text have the same value everywhere. */
  lemma WrittenUnambiguous(e: Expr, f: Expr, lookup: string -> Sym, v: Valuation)
    requires AllReadable(e, lookup) && PlainNames(e) && AllReadable(f, lookup) && PlainNames(f)
    requires Written(Some(e)) == Written(Some(f))
    ensures Regroup(e) == Regroup(f) && Eval(e, v) == Eval(f, v)
  {
    ReadWritten(e, lookup);
    ReadWritten(f, lookup);
    RegroupExact(e, v);
    RegroupExact(f, v);
  }

  // ---------- what is written ----------

  function Joined(ts: seq<Token>): string {
    Concat(Texts(ts))
  }

  lemma {:induction false} ConcatJoin(a: seq<string>, b: seq<string>)
    ensures Concat(a + b) == Concat(a) + Concat(b)
  {
    if a == [] {
      assert a + b == b;
    } else {
      assert (a + b)[0] == a[0] && (a + b)[1..] == a[1..] + b;
      ConcatJoin(a[1..], b);
    }
  }

  lemma JoinedAppend(a: seq<Token>, b: seq<Token>)
    ensures Joined(a + b) == Joined(a) + Joined(b)
  {
    assert Texts(a + b) == Texts(a) + Texts(b);
    ConcatJoin(Texts(a), Texts(b));
  }

  lemma JoinedOne(t: Token)
    ensures Joined([t]) == t.Text()
  {
    assert Texts([t]) == [t.Text()];
    assert Concat([t.Text()]) == t.Text() + Concat([]);
  }

  lemma JoinedThree(a: seq<Token>, t: Token, b: seq<Token>)
    ensures Joined(a + [t] + b) == Joined(a) + t.Text() + Joined(b)
  {
    JoinedAppend(a + [t], b);
    JoinedAppend(a, [t]);
    JoinedOne(t);
  }

  function InParens(needed: bool, text: string): string {
    if needed then "(" + text + ")" else text
  }

  lemma JoinedParens(ts: seq<Token>)
    ensures Joined([Open] + ts + [Close]) == "(" + Joined(ts) + ")"
  {
    JoinedAppend([Open] + ts, [Close]);
    JoinedAppend([Open], ts);
    JoinedOne(Open);
    JoinedOne(Close);
  }

  lemma PrintOwn(e: Expr, prev: ExprType)
    ensures Print(e, prev) ==
            if CompareType(prev, TypeOf(e)) > 0 then [Open] + Print(e, NoneType) + [Close] else Print(e, NoneType)
  {
  }

  /** What is written for an operand of a node of type `prev`. */
  lemma JoinedOperand(e: Expr, prev: ExprType)
    ensures Joined(Print(e, prev)) == InParens(CompareType(prev, TypeOf(e)) > 0, Written(Some(e)))
  {
    PrintOwn(e, prev);
    JoinedParens(Print(e, NoneType));
  }

  lemma WrittenNot(a: Expr)
    ensures Written(Some(Not(a))) == "!" + InParens(a.Bin?, Written(Some(a)))
  {
    assert Print(Not(a), NoneType) == [Bang] + Print(a, NotType);
    JoinedAppend([Bang], Print(a, NotType));
    JoinedOne(Bang);
    JoinedOperand(a, NotType);
  }

  lemma PrintedBin(op: Op, l: Expr, r: Expr)
    ensures Print(Bin(op, l, r), NoneType) == Print(l, OpType(op)) + [Sign(op)] + Print(r, OpType(op))
  {
  }

  lemma WrittenBin(op: Op, l: Expr, r: Expr)
    ensures Written(Some(Bin(op, l, r))) ==
            InParens(op.OpAnd? && IsOp(OpOr, l), Written(Some(l))) + (if op.OpOr? then " || " else " && ")
            + InParens(op.OpAnd? && IsOp(OpOr, r), Written(Some(r)))
  {
    PrintedBin(op, l, r);
    JoinedThree(Print(l, OpType(op)), Sign(op), Print(r, OpType(op)));
    JoinedOperand(l, OpType(op));
    JoinedOperand(r, OpType(op));
  }

  lemma WrittenComparison(l: Sym, sign: Token, r: Sym)
    ensures Joined([Word(Name(l)), sign, Word(Name(r))]) == Name(l) + sign.Text() + Name(r)
  {
    assert [Word(Name(l)), sign, Word(Name(r))] == [Word(Name(l))] + [sign] + [Word(Name(r))];
    JoinedThree([Word(Name(l))], sign, [Word(Name(r))]);
    JoinedOne(Word(Name(l)));
    JoinedOne(Word(Name(r)));
  }

  /**
   * What is written for an expression is made of what is written for its operands, of which only those of ! that are
   * AND or OR, and those of AND that are OR, are put in parentheses.
   */
  lemma WrittenExact(e: Expr)
    ensures Written(Some(e)) ==
            match e {
              case Symbol(s) => Name(s)
              case Equal(l, r) => Name(l) + "=" + Name(r)
              case Unequal(l, r) => Name(l) + "!=" + Name(r)
              case Not(a) => "!" + InParens(a.Bin?, Written(Some(a)))
              case Bin(OpOr, l, r) => Written(Some(l)) + " || " + Written(Some(r))
              case Bin(OpAnd, l, r) =>
                InParens(IsOp(OpOr, l), Written(Some(l))) + " && " + InParens(IsOp(OpOr, r), Written(Some(r)))
            }
  {
    match e
    case Symbol(s) => JoinedOne(Word(Name(s)));
    case Equal(l, r) => WrittenComparison(l, EqualSign, r);
    case Unequal(l, r) => WrittenComparison(l, UnequalSign, r);
    case Not(a) => WrittenNot(a);
    case Bin(op, l, r) => WrittenBin(op, l, r);
  }
}
