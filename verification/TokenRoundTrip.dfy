/** Printing and parsing: the parser accepts exactly the token sequences that source trees print
    to, gives back the tree, and refuses every other sequence for its first bad token. */
module TokenRoundTrip {
  import opened Assembly
  import opened Parser

  // Printing ------------------------------------------------------------------------------------------

  function OperandTokens(o: Operand): seq<Token> {
    match o
    case Empty => []
    case Register(r) => [RegisterName(r)]
    case Immediate(v) => [Number(v)]
    case Reference(id) => [Identifier(id)]
  }

  function StatTokens(s: Stat): (r: seq<Token>)
    ensures r != []
  {
    match s
    case Label(id, _) => [LabelDefinition(id)]
    case Instruction(i) => [Keyword(i.isa)] + OperandTokens(i.ops[0]) + OperandTokens(i.ops[1]) + OperandTokens(i.ops[2])
  }

  /** The tokens of a tree, statement by statement. */
  function Tokens(ast: seq<Stat>): seq<Token> {
    if ast == [] then [] else Tokens(ast[..|ast| - 1]) + StatTokens(ast[|ast| - 1])
  }

  predicate FilledFromLeft(ops: Operands) {
    (ops[0].Empty? ==> ops[1].Empty?) && (ops[1].Empty? ==> ops[2].Empty?)
  }

  predicate AllFilled(ast: seq<Stat>) {
    forall k :: 0 <= k < |ast| && ast[k].Instruction? ==> FilledFromLeft(ast[k].ins.ops)
  }

  /** Trees that a source can have: operand places filled from the left, label names distinct and
      every label at the slot it stands before. */
  predicate IsSource(ast: seq<Stat>) {
    Placed(ast) && AllFilled(ast)
  }

  lemma TokensOfNext(ast: seq<Stat>, s: Stat)
    ensures Tokens(ast + [s]) == Tokens(ast) + StatTokens(s)
  {
    assert (ast + [s])[..|ast|] == ast;
  }

  // One token ------------------------------------------------------------------------------------------

  /** An accepted token is printed behind what was printed before. */
  lemma AcceptPrints(ast: seq<Stat>, t: Token)
    requires IsSource(ast) && Accept(ast, t).Ok?
    ensures var n := Accept(ast, t).ast; IsSource(n) && Tokens(n) == Tokens(ast) + [t]
  {
    AcceptPlaced(ast, t);
    hide Placed, SlotOf, Tokens, AddOperand;
    match t
    case Keyword(isa) => StatementPrints(ast, Instruction(Ins(isa, [Empty, Empty, Empty])));
    case LabelDefinition(id) => StatementPrints(ast, Label(id, SlotOf(ast, |ast|)));
    case Number(v) => OperandPrints(ast, Immediate(v));
    case RegisterName(r) => OperandPrints(ast, Register(r));
    case Identifier(id) => OperandPrints(ast, Reference(id));
  }

  lemma StatementPrints(ast: seq<Stat>, s: Stat)
    requires AllFilled(ast) && (s.Instruction? ==> s.ins.ops == [Empty, Empty, Empty])
    ensures AllFilled(ast + [s])
    ensures Tokens(ast + [s]) == Tokens(ast) + [if s.Label? then LabelDefinition(s.lname) else Keyword(s.ins.isa)]
  {
    TokensOfNext(ast, s);
    hide Tokens;
  }

  lemma OperandPrints(ast: seq<Stat>, op: Operand)
    requires AddOperand(ast, op).Ok? && !op.Empty? && AllFilled(ast)
    ensures var n := AddOperand(ast, op).ast; AllFilled(n) && Tokens(n) == Tokens(ast) + OperandTokens(op)
  {
    var last := |ast| - 1;
    var i := ast[last].ins;
    var more := Ins(i.isa, i.ops[FirstEmpty(i.ops) := op]);
    OperandGrows(i, op);
    LastReplaced(ast, Instruction(more));
    hide Tokens, StatTokens, OperandTokens, FilledFromLeft, FirstEmpty;
  }

  lemma LastReplaced(ast: seq<Stat>, s: Stat)
    requires ast != []
    ensures Tokens(ast) == Tokens(ast[..|ast| - 1]) + StatTokens(ast[|ast| - 1])
    ensures Tokens(ast[|ast| - 1 := s]) == Tokens(ast[..|ast| - 1]) + StatTokens(s)
  {
    hide StatTokens;
    var more := ast[|ast| - 1 := s];
    assert more[..|ast| - 1] == ast[..|ast| - 1];
  }

  lemma OperandGrows(i: Ins, op: Operand)
    requires FilledFromLeft(i.ops) && FirstEmpty(i.ops) < OPERANDS && !op.Empty?
    ensures var more := Ins(i.isa, i.ops[FirstEmpty(i.ops) := op]);
            FilledFromLeft(more.ops) && StatTokens(Instruction(more)) == StatTokens(Instruction(i)) + OperandTokens(op)
  {
    hide OperandTokens;
    assert OperandTokens(Empty) == [] by {
      EmptyPrintsNothing();
    }
  }

  lemma EmptyPrintsNothing()
    ensures OperandTokens(Empty) == []
  {
  }

  lemma {:induction false} AcceptAllPrints(ast: seq<Stat>, tokens: seq<Token>)
    requires IsSource(ast) && AcceptAll(ast, tokens).Ok?
    ensures var n := AcceptAll(ast, tokens).ast; IsSource(n) && Tokens(n) == Tokens(ast) + tokens
    decreases |tokens|
  {
    hide IsSource, Tokens, Accept;
    if tokens != [] {
      AcceptPrints(ast, tokens[0]);
      AcceptAllPrints(Accept(ast, tokens[0]).ast, tokens[1..]);
      assert tokens == [tokens[0]] + tokens[1..];
    }
  }

  lemma {:induction false} AcceptAllAppend(ast: seq<Stat>, first: seq<Token>, second: seq<Token>)
    ensures AcceptAll(ast, first + second)
            == match AcceptAll(ast, first) case Failed(e) => Failed(e) case Ok(n) => AcceptAll(n, second)
    decreases |first|
  {
    hide Accept;
    if first == [] {
      assert first + second == second;
    } else {
      assert (first + second)[0] == first[0] && (first + second)[1..] == first[1..] + second;
      if Accept(ast, first[0]).Ok? {
        AcceptAllAppend(Accept(ast, first[0]).ast, first[1..], second);
      }
    }
  }

  lemma AcceptAllOne(ast: seq<Stat>, t: Token)
    ensures AcceptAll(ast, [t]) == Accept(ast, t)
  {
    hide Accept;
    assert [t][1..] == [];
  }

  // Parsing what was printed ---------------------------------------------------------------------------

  /** The tokens of one operand place, behind those of the places before it. */
  lemma OperandRead(ast: seq<Stat>, isa: Mnemonic, ops: Operands, j: nat, op: Operand)
    requires j < OPERANDS && ops[j].Empty? && (!op.Empty? ==> FirstEmpty(ops) == j)
    ensures AcceptAll(ast + [Instruction(Ins(isa, ops))], OperandTokens(op)) == Ok(ast + [Instruction(Ins(isa, ops[j := op]))])
  {
    var tree := ast + [Instruction(Ins(isa, ops))];
    if op.Empty? {
      assert ops[j := op] == ops;
    } else {
      AcceptAllOne(tree, OperandTokens(op)[0]);
      assert tree[|ast| := Instruction(Ins(isa, ops[j := op]))] == ast + [Instruction(Ins(isa, ops[j := op]))];
    }
  }

  lemma InstructionRead(ast: seq<Stat>, i: Ins)
    requires FilledFromLeft(i.ops)
    ensures AcceptAll(ast, StatTokens(Instruction(i))) == Ok(ast + [Instruction(i)])
  {
    var none: Operands := [Empty, Empty, Empty];
    var one: Operands := none[0 := i.ops[0]];
    var two: Operands := one[1 := i.ops[1]];
    assert two[2 := i.ops[2]] == i.ops;
    var a, b, c, d := [Keyword(i.isa)], OperandTokens(i.ops[0]), OperandTokens(i.ops[1]), OperandTokens(i.ops[2]);
    assert AcceptAll(ast, a) == Ok(ast + [Instruction(Ins(i.isa, none))]) by {
      AcceptAllOne(ast, Keyword(i.isa));
    }
    OperandRead(ast, i.isa, none, 0, i.ops[0]);
    OperandRead(ast, i.isa, one, 1, i.ops[1]);
    OperandRead(ast, i.isa, two, 2, i.ops[2]);
    hide AcceptAll, OperandTokens, FirstEmpty;
    AcceptAllAppend(ast, a, b);
    AcceptAllAppend(ast, a + b, c);
    AcceptAllAppend(ast, a + b + c, d);
  }

  lemma LabelRead(ast: seq<Stat>, s: Stat)
    requires s.Label? && Placed(ast + [s])
    ensures AcceptAll(ast, StatTokens(s)) == Ok(ast + [s])
  {
    var all := ast + [s];
    AcceptAllOne(ast, LabelDefinition(s.lname));
    assert forall k :: 0 <= k < |ast| ==> all[k] == ast[k];
    SlotOfPrefix(ast, [s], |ast|);
    assert all[|ast|] == s && s.off == SlotOf(all, |ast|);
    hide SlotOf;
  }

  lemma SourcePrefix(ast: seq<Stat>)
    requires IsSource(ast) && ast != []
    ensures IsSource(ast[..|ast| - 1])
  {
    var n := |ast| - 1;
    var p := ast[..n];
    assert ast == p + [ast[n]];
    forall k | 0 <= k < n && p[k].Label?
      ensures p[k].off == SlotOf(p, k)
    {
      SlotOfPrefix(p, [ast[n]], k);
      assert ast[k] == p[k];
    }
    forall j, k | 0 <= j < k < n && p[j].Label? && p[k].Label?
      ensures p[j].lname != p[k].lname
    {
      assert ast[j] == p[j] && ast[k] == p[k];
    }
  }

  /** What a source tree prints to is read back as the tree. */
  lemma {:induction false} PrintedIsRead(ast: seq<Stat>)
    requires IsSource(ast)
    ensures AcceptAll([], Tokens(ast)) == Ok(ast)
  {
    if ast != [] {
      var n := |ast| - 1;
      var p, s := ast[..n], ast[n];
      assert ast == p + [s];
      SourcePrefix(ast);
      PrintedIsRead(p);
      AcceptAllAppend([], Tokens(p), StatTokens(s));
      if s.Label? {
        LabelRead(p, s);
      } else {
        InstructionRead(p, s.ins);
      }
      hide AcceptAll, StatTokens, IsSource;
    }
  }

  /** Print and parse: the parser reads a token sequence as a tree exactly when the tree is a source
      tree that prints to it. */
  lemma ReadsExactlyWhatPrints(tokens: seq<Token>, ast: seq<Stat>)
    ensures AcceptAll([], tokens) == Ok(ast) <==> IsSource(ast) && tokens == Tokens(ast)
  {
    hide AcceptAll, Tokens;
    assert IsSource([]);
    assert Tokens([]) == [] by {
      NoTokens();
    }
    if AcceptAll([], tokens) == Ok(ast) {
      AcceptAllPrints([], tokens);
      assert [] + tokens == tokens;
    }
    if IsSource(ast) && tokens == Tokens(ast) {
      PrintedIsRead(ast);
    }
  }

  lemma NoTokens()
    ensures Tokens([]) == []
  {
  }

  // Refused sources --------------------------------------------------------------------------------------

  datatype Reading = Fine | Wrong(error: Error)

  predicate IsOperand(t: Token) { t.Number? || t.RegisterName? || t.Identifier? }

  /** What is wrong with token k behind tokens that are fine. */
  ghost function FaultAt(tokens: seq<Token>, k: nat): Reading
    requires k < |tokens|
  {
    if tokens[k].Keyword? then Fine
    else if tokens[k].LabelDefinition? then
      if exists j :: 0 <= j < k && tokens[j] == tokens[k] then Wrong(DuplicateLabel) else Fine
    else if k == 0 then Wrong(UndefinedReferencing)
    else if tokens[k - 1].LabelDefinition? then Wrong(NotAnInstruction)
    else if k >= 3 && IsOperand(tokens[k - 1]) && IsOperand(tokens[k - 2]) && IsOperand(tokens[k - 3]) then Wrong(TooManyOperands)
    else Fine
  }

  /** The fault of the first bad token, if there is one. */
  ghost function ReadingOf(tokens: seq<Token>): Reading {
    if tokens == [] then Fine
    else if ReadingOf(tokens[..|tokens| - 1]).Wrong? then ReadingOf(tokens[..|tokens| - 1])
    else FaultAt(tokens, |tokens| - 1)
  }

  lemma {:induction false} LabelsPrinted(ast: seq<Stat>, id: string)
    ensures Defines(ast, id) <==> LabelDefinition(id) in Tokens(ast)
    decreases |ast|
  {
    if ast != [] {
      var n := |ast| - 1;
      LabelsPrinted(ast[..n], id);
      assert ast == ast[..n] + [ast[n]];
      LabelPrinted(ast[n], id);
      hide StatTokens;
    }
  }

  lemma LabelPrinted(s: Stat, id: string)
    ensures LabelDefinition(id) in StatTokens(s) <==> s.Label? && s.lname == id
  {
    if s.Instruction? {
      assert forall o: Operand :: LabelDefinition(id) !in OperandTokens(o);
      hide OperandTokens;
    }
  }

  /** The last tokens tell the last statement. */
  lemma StatTokensEnd(s: Stat)
    requires s.Instruction? ==> FilledFromLeft(s.ins.ops)
    ensures var t := StatTokens(s);
            if s.Label? then t == [LabelDefinition(s.lname)]
            else
              && t[0].Keyword? && |t| == 1 + FirstEmpty(s.ins.ops)
              && forall k :: 1 <= k < |t| ==> IsOperand(t[k])
  {
  }

  /** The last tokens before position k, when the last statement printed to st. */
  lemma EndOfTokens(before: seq<Token>, st: seq<Token>, t: Token)
    requires st != []
    ensures var all, k := before + st + [t], |before| + |st|;
            && all[k] == t && all[k - 1] == st[|st| - 1]
            && (|st| >= 2 ==> all[k - 2] == st[|st| - 2])
            && (|st| >= 3 ==> all[k - 3] == st[|st| - 3])
            && (|st| >= 4 ==> all[k - 4] == st[|st| - 4])
  {
  }

  lemma OperandFault(ast: seq<Stat>, t: Token, op: Operand)
    requires IsSource(ast) && IsOperand(t) && !op.Empty?
    ensures var f := FaultAt(Tokens(ast) + [t], |Tokens(ast)|);
            if f.Fine? then AddOperand(ast, op).Ok? else AddOperand(ast, op) == Failed(f.error)
  {
    if ast == [] {
      NoTokens();
    } else {
      var last := ast[|ast| - 1];
      assert last.Instruction? ==> FilledFromLeft(last.ins.ops);
      LastReplaced(ast, last);
      StatTokensEnd(last);
      EndOfTokens(Tokens(ast[..|ast| - 1]), StatTokens(last), t);
      hide Tokens, StatTokens, IsSource, FilledFromLeft;
      assert Tokens(ast) + [t] == Tokens(ast[..|ast| - 1]) + StatTokens(last) + [t];
      FaultBehind(Tokens(ast[..|ast| - 1]), StatTokens(last), t);
    }
  }

  /** The fault of an operand, by the tokens of the statement before it. */
  lemma FaultBehind(before: seq<Token>, st: seq<Token>, t: Token)
    requires IsOperand(t) && 1 <= |st| <= 4
    requires st[0].LabelDefinition? ==> |st| == 1
    requires !st[0].LabelDefinition? ==> st[0].Keyword? && forall k :: 1 <= k < |st| ==> IsOperand(st[k])
    ensures FaultAt(before + st + [t], |before + st|)
            == if st[0].LabelDefinition? then Wrong(NotAnInstruction) else if |st| == 4 then Wrong(TooManyOperands) else Fine
  {
    EndOfTokens(before, st, t);
  }

  lemma AcceptFault(ast: seq<Stat>, t: Token)
    requires IsSource(ast)
    ensures var f := FaultAt(Tokens(ast) + [t], |Tokens(ast)|);
            if f.Fine? then Accept(ast, t).Ok? else Accept(ast, t) == Failed(f.error)
  {
    var p := Tokens(ast);
    hide Tokens, IsSource;
    match t
    case Keyword(_) =>
    case LabelDefinition(id) =>
      LabelsPrinted(ast, id);
      var all := p + [t];
      assert forall j :: 0 <= j < |p| ==> all[j] == p[j];
      assert (exists j :: 0 <= j < |p| && all[j] == all[|p|]) <==> t in p by {
        if t in p {
          var j :| 0 <= j < |p| && p[j] == t;
          assert all[j] == all[|p|];
        }
      }
    case Number(v) => OperandFault(ast, t, Immediate(v));
    case RegisterName(r) => OperandFault(ast, t, Register(r));
    case Identifier(id) => OperandFault(ast, t, Reference(id));
  }

  /** Reading a source, on its tokens alone: the first token that names no statement it can belong
      to, comes fourth behind a mnemonic or repeats a label decides the error; without such a
      token the source is the tree that prints to it. */
  lemma {:induction false} ReadsUpToFirstFault(tokens: seq<Token>)
    ensures ReadingOf(tokens).Wrong? ==> AcceptAll([], tokens) == Failed(ReadingOf(tokens).error)
    ensures ReadingOf(tokens).Fine? ==>
              && AcceptAll([], tokens).Ok? && IsSource(AcceptAll([], tokens).ast) && Tokens(AcceptAll([], tokens).ast) == tokens
    decreases |tokens|
  {
    if tokens == [] {
      NoTokens();
    } else {
      var n := |tokens| - 1;
      var most, t := tokens[..n], tokens[n];
      assert tokens == most + [t];
      ReadsUpToFirstFault(most);
      AcceptAllAppend([], most, [t]);
      if ReadingOf(most).Fine? {
        var ast := AcceptAll([], most).ast;
        AcceptAllOne(ast, t);
        AcceptFault(ast, t);
        if Accept(ast, t).Ok? {
          AcceptPrints(ast, t);
        }
      }
      hide AcceptAll, Accept, FaultAt, Tokens, IsSource;
    }
  }

  // Parsing a whole source -----------------------------------------------------------------------------------

  /** Slots of the mnemonics in a source. */
  function SlotsOf(tokens: seq<Token>): nat {
    if tokens == [] then 0
    else
      var t := tokens[|tokens| - 1];
      SlotsOf(tokens[..|tokens| - 1]) + if !t.Keyword? then 0 else if t.isa.Ld64? || t.isa.LdMapFd? then 2 else 1
  }

  lemma {:induction false} SlotsAppend(a: seq<Token>, b: seq<Token>)
    ensures SlotsOf(a + b) == SlotsOf(a) + SlotsOf(b)
    decreases |b|
  {
    if b == [] {
      assert a + b == a;
    } else {
      SlotsAppend(a, b[..|b| - 1]);
      assert (a + b)[..|a + b| - 1] == a + b[..|b| - 1];
    }
  }

  lemma {:induction false} SlotsPrinted(ast: seq<Stat>)
    ensures SlotsOf(Tokens(ast)) == SlotOf(ast, |ast|)
    decreases |ast|
  {
    hide StatTokens, SlotsOf, Tokens, SlotOf;
    if ast == [] {
      NoTokens();
      NoSlots();
    } else {
      var n := |ast| - 1;
      SlotsPrinted(ast[..n]);
      assert ast == ast[..n] + [ast[n]];
      TokensOfNext(ast[..n], ast[n]);
      SlotsAppend(Tokens(ast[..n]), StatTokens(ast[n]));
      SlotsOfStat(ast[n]);
      SlotOfPrefix(ast[..n], [ast[n]], n);
      SlotOfNext(ast, n);
    }
  }

  lemma NoSlots()
    ensures SlotsOf([]) == 0 && SlotOf([], 0) == 0
  {
  }

  lemma SlotsOfStat(s: Stat)
    ensures SlotsOf(StatTokens(s)) == StatSlots(s)
  {
    if s.Instruction? {
      var a, b, c, d := [Keyword(s.ins.isa)], OperandTokens(s.ins.ops[0]), OperandTokens(s.ins.ops[1]), OperandTokens(s.ins.ops[2]);
      SlotsAppend(a, b);
      SlotsAppend(a + b, c);
      SlotsAppend(a + b + c, d);
      assert forall o: Operand :: SlotsOf(OperandTokens(o)) == 0;
      assert SlotsOf(a) == InsSlots(s.ins.isa) by {
        assert a[..0] == [];
      }
    }
  }

  predicate NamesDefined(tokens: seq<Token>) {
    forall j :: 0 <= j < |tokens| && tokens[j].Identifier? ==> LabelDefinition(tokens[j].id) in tokens
  }

  predicate Refers(ast: seq<Stat>, id: string) {
    exists i, j :: 0 <= i < |ast| && 0 <= j < OPERANDS && ast[i].Instruction? && ast[i].ins.ops[j] == Reference(id)
  }

  lemma ReferencePrinted(s: Stat, id: string)
    ensures Identifier(id) in StatTokens(s) <==> s.Instruction? && exists j :: 0 <= j < OPERANDS && s.ins.ops[j] == Reference(id)
  {
    if s.Instruction? {
      assert forall o: Operand :: Identifier(id) in OperandTokens(o) <==> o == Reference(id);
      hide OperandTokens;
      assert Identifier(id) in StatTokens(s) <==> s.ins.ops[0] == Reference(id) || s.ins.ops[1] == Reference(id) || s.ins.ops[2] == Reference(id);
    }
  }

  lemma RefersNext(ast: seq<Stat>, s: Stat, id: string)
    ensures Refers(ast + [s], id)
            <==> Refers(ast, id) || (s.Instruction? && exists j :: 0 <= j < OPERANDS && s.ins.ops[j] == Reference(id))
  {
    var all := ast + [s];
    if s.Instruction? && exists j :: 0 <= j < OPERANDS && s.ins.ops[j] == Reference(id) {
      var j :| 0 <= j < OPERANDS && s.ins.ops[j] == Reference(id);
      assert all[|ast|].ins.ops[j] == Reference(id);
    }
    if Refers(ast, id) {
      var i, j :| 0 <= i < |ast| && 0 <= j < OPERANDS && ast[i].Instruction? && ast[i].ins.ops[j] == Reference(id);
      assert all[i].ins.ops[j] == Reference(id);
    }
  }

  lemma {:induction false} ReferencesPrinted(ast: seq<Stat>, id: string)
    ensures Refers(ast, id) <==> Identifier(id) in Tokens(ast)
    decreases |ast|
  {
    hide StatTokens, Tokens;
    if ast == [] {
      NoTokens();
    } else {
      hide Refers;
      var n := |ast| - 1;
      ReferencesPrinted(ast[..n], id);
      assert ast == ast[..n] + [ast[n]];
      TokensOfNext(ast[..n], ast[n]);
      ReferencePrinted(ast[n], id);
      RefersNext(ast[..n], ast[n], id);
    }
  }

  lemma DefinedOnTokens(ast: seq<Stat>)
    ensures AllDefined(ast) <==> NamesDefined(Tokens(ast))
  {
    hide Tokens, Defines;
    var p := Tokens(ast);
    forall j | AllDefined(ast) && 0 <= j < |p| && p[j].Identifier?
      ensures LabelDefinition(p[j].id) in p
    {
      ReferencesPrinted(ast, p[j].id);
      LabelsPrinted(ast, p[j].id);
      var i, k :| 0 <= i < |ast| && 0 <= k < OPERANDS && ast[i].Instruction? && ast[i].ins.ops[k] == Reference(p[j].id);
      assert UsesOnlyDefined(ast, i);
    }
    forall i, k | NamesDefined(p) && 0 <= i < |ast| && 0 <= k < OPERANDS && ast[i].Instruction? && ast[i].ins.ops[k].Reference?
      ensures Defines(ast, ast[i].ins.ops[k].id)
    {
      var id := ast[i].ins.ops[k].id;
      assert Refers(ast, id);
      ReferencesPrinted(ast, id);
      LabelsPrinted(ast, id);
    }
  }

  /** The same statement but for references, which became numbers. */
  predicate SameButReferences(s: Stat, r: Stat) {
    if s.Label? then r == s
    else r.Instruction? && r.ins.isa == s.ins.isa
         && forall j :: 0 <= j < OPERANDS ==> if s.ins.ops[j].Reference? then r.ins.ops[j].Immediate? else r.ins.ops[j] == s.ins.ops[j]
  }

  lemma ResolvedIsSame(ast: seq<Stat>, i: nat)
    requires AllDefined(ast) && i < |ast|
    ensures SameButReferences(ast[i], Resolved(ast)[i])
    ensures (ast[i].Instruction? ==> forall j :: 0 <= j < OPERANDS ==> !ast[i].ins.ops[j].Reference?) ==> Resolved(ast)[i] == ast[i]
  {
    assert Resolved(ast)[i] == ResolvedStat(ast, i);
    assert UsesOnlyDefined(ast, i);
    hide Resolved, AllDefined, Distance, SlotOf, Find;
    if ast[i].Instruction? {
      var ops, pc := ast[i].ins.ops, SlotOf(ast, i + 1);
      forall j | 0 <= j < OPERANDS
        ensures if ops[j].Reference? then ResolvedOperand(ast, ops[j], pc).Immediate? else ResolvedOperand(ast, ops[j], pc) == ops[j]
      {
        if ops[j].Reference? {
          FindDefines(ast, ops[j].id);
        }
      }
      if forall j :: 0 <= j < OPERANDS ==> !ops[j].Reference? {
        assert [ops[0], ops[1], ops[2]] == ops;
      }
    }
  }

  /** The whole parser on its tokens: which sources are refused, with which error, and what becomes
      of the others.  A source is refused for its first bad token; then for a name without a label;
      then for having no slot or more than a million; and otherwise becomes the tree that prints to
      it with every reference a number. */
  lemma ParsesExactly(tokens: seq<Token>)
    ensures var r := Parse(tokens);
            if ReadingOf(tokens).Wrong? then r == Failed(ReadingOf(tokens).error)
            else if !NamesDefined(tokens) then r == Failed(UndefinedIdentifier)
            else if SlotsOf(tokens) < 1 then r == Failed(NoInstructions)
            else if SlotsOf(tokens) > 1_000_000 then r == Failed(TooManyInstructions)
            else
              && r.Ok?
              && exists tree: seq<Stat> ::
                   && IsSource(tree) && Tokens(tree) == tokens && |r.ast| == |tree|
                   && forall i :: 0 <= i < |tree| ==> SameButReferences(tree[i], r.ast[i])
  {
    ReadsUpToFirstFault(tokens);
    hide AcceptAll, ReadingOf, Tokens, IsSource, AllDefined, NamesDefined, Resolved, SlotsOf;
    if ReadingOf(tokens).Fine? {
      var tree := AcceptAll([], tokens).ast;
      DefinedOnTokens(tree);
      SlotsPrinted(tree);
      if AllDefined(tree) {
        forall i | 0 <= i < |tree|
          ensures SameButReferences(tree[i], Resolved(tree)[i])
        {
          ResolvedIsSame(tree, i);
        }
      }
    }
  }

  /** A printed source without references comes back as it is. */
  lemma PrintAndParse(tree: seq<Stat>)
    requires IsSource(tree) && 1 <= SlotOf(tree, |tree|) <= 1_000_000
    requires forall i, j :: 0 <= i < |tree| && 0 <= j < OPERANDS && tree[i].Instruction? ==> !tree[i].ins.ops[j].Reference?
    ensures Parse(Tokens(tree)) == Ok(tree)
  {
    PrintedIsRead(tree);
    hide AcceptAll, Tokens, IsSource, SlotOf, Resolved;
    forall i | 0 <= i < |tree|
      ensures UsesOnlyDefined(tree, i)
    {
    }
    assert AllDefined(tree);
    hide AllDefined;
    forall i | 0 <= i < |tree|
      ensures Resolved(tree)[i] == tree[i]
    {
      ResolvedIsSame(tree, i);
    }
    assert Resolved(tree) == tree;
  }
}
