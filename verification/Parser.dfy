/** The assembler's parser behind its lexer: tokens extend a syntax tree whose labels remember the
    slot they stand for, and references to labels become distances. */
module Parser {
  import opened Assembly

  /** A token as the lexer classifies it.  A label's name is an identifier: not a number, not a
      keyword, not empty and without reserved symbols. */
  datatype Token =
    | Keyword(isa: Mnemonic)
    | Number(val: Int64)
    | RegisterName(reg: RegNo)
    | Identifier(id: string)
    | LabelDefinition(id: string)

  datatype Error = UndefinedReferencing | NotAnInstruction | TooManyOperands | DuplicateLabel | UndefinedIdentifier | NoInstructions | TooManyInstructions

  datatype Result = Ok(ast: seq<Stat>) | Failed(error: Error)

  // Specification: one token at a time -------------------------------------------------------------

  function FirstEmpty(ops: Operands): (i: nat)
    ensures i <= OPERANDS && (i < OPERANDS ==> ops[i].Empty?)
    ensures forall k :: 0 <= k < i ==> !ops[k].Empty?
  {
    if ops[0].Empty? then 0 else if ops[1].Empty? then 1 else if ops[2].Empty? then 2 else 3
  }

  function AddOperand(ast: seq<Stat>, op: Operand): Result {
    if ast == [] then Failed(UndefinedReferencing)
    else
      var last := ast[|ast| - 1];
      if !last.Instruction? then Failed(NotAnInstruction)
      else
        var i := FirstEmpty(last.ins.ops);
        if i == OPERANDS then Failed(TooManyOperands)
        else Ok(ast[|ast| - 1 := Instruction(Ins(last.ins.isa, last.ins.ops[i := op]))])
  }

  predicate Defines(ast: seq<Stat>, id: string) {
    exists k :: 0 <= k < |ast| && ast[k].Label? && ast[k].lname == id
  }

  function Accept(ast: seq<Stat>, t: Token): Result {
    match t
    case Keyword(isa) => Ok(ast + [Instruction(Ins(isa, [Empty, Empty, Empty]))])
    case LabelDefinition(id) =>
      if Defines(ast, id) then Failed(DuplicateLabel) else Ok(ast + [Label(id, SlotOf(ast, |ast|))])
    case Number(v) => AddOperand(ast, Immediate(v))
    case RegisterName(r) => AddOperand(ast, Register(r))
    case Identifier(id) => AddOperand(ast, Reference(id))
  }

  function AcceptAll(ast: seq<Stat>, tokens: seq<Token>): Result
    decreases |tokens|
  {
    if tokens == [] then Ok(ast)
    else
      match Accept(ast, tokens[0])
      case Failed(e) => Failed(e)
      case Ok(next) => AcceptAll(next, tokens[1..])
  }

  // Specification: references -----------------------------------------------------------------------

  /** Index of the first label of that name, or the length of the tree. */
  function Find(ast: seq<Stat>, id: string, from: nat): (k: nat)
    requires from <= |ast|
    ensures from <= k <= |ast| && (k < |ast| ==> ast[k].Label? && ast[k].lname == id)
    ensures forall j :: from <= j < k ==> !(ast[j].Label? && ast[j].lname == id)
    decreases |ast| - from
  {
    if from == |ast| || (ast[from].Label? && ast[from].lname == id) then from else Find(ast, id, from + 1)
  }

  /** Distance from the slot after an instruction to a label, as the 64-bit subtraction gives it. */
  function Distance(slot: nat, pc: nat): Int64 {
    AsInt64(slot - pc)
  }

  function ResolvedOperand(ast: seq<Stat>, op: Operand, pc: nat): Operand {
    if op.Reference? then
      var k := Find(ast, op.id, 0);
      if k < |ast| then Immediate(Distance(ast[k].off, pc)) else op
    else op
  }

  /** Every operand with a reference to a known label replaced. */
  function ResolvedStat(ast: seq<Stat>, i: nat): Stat
    requires i < |ast|
  {
    if ast[i].Label? then ast[i]
    else
      var pc, ops := SlotOf(ast, i + 1), ast[i].ins.ops;
      Instruction(Ins(ast[i].ins.isa,
                      [ResolvedOperand(ast, ops[0], pc), ResolvedOperand(ast, ops[1], pc), ResolvedOperand(ast, ops[2], pc)]))
  }

  function Resolved(ast: seq<Stat>): (r: seq<Stat>)
    ensures |r| == |ast|
  {
    seq(|ast|, (i: int) requires 0 <= i < |ast| => ResolvedStat(ast, i))
  }

  predicate UsesOnlyDefined(ast: seq<Stat>, i: nat)
    requires i < |ast|
  {
    ast[i].Instruction? ==>
      forall j :: 0 <= j < OPERANDS ==> ast[i].ins.ops[j].Reference? ==> Defines(ast, ast[i].ins.ops[j].id)
  }

  predicate DefinedUpTo(ast: seq<Stat>, n: nat) {
    n <= |ast| && forall i :: 0 <= i < n ==> UsesOnlyDefined(ast, i)
  }

  predicate AllDefined(ast: seq<Stat>) {
    DefinedUpTo(ast, |ast|)
  }

  /** The whole parser on one source. */
  function Parse(tokens: seq<Token>): Result {
    match AcceptAll([], tokens)
    case Failed(e) => Failed(e)
    case Ok(ast) =>
      if !AllDefined(ast) then Failed(UndefinedIdentifier)
      else if SlotOf(ast, |ast|) < 1 then Failed(NoInstructions)
      else if SlotOf(ast, |ast|) > MAX_INSNS then Failed(TooManyInstructions)
      else Ok(Resolved(ast))
  }

  /** The tree with its first i statements resolved. */
  predicate PartlyResolved(was: seq<Stat>, ast: seq<Stat>, i: nat) {
    |ast| == |was| && i <= |was| && forall k :: 0 <= k < |was| ==> ast[k] == if k < i then ResolvedStat(was, k) else was[k]
  }

  // The parser ----------------------------------------------------------------------------------------

  /** Labels are at the slots they say, and no name is defined twice. */
  predicate Placed(ast: seq<Stat>) {
    && (forall k :: 0 <= k < |ast| && ast[k].Label? ==> ast[k].off == SlotOf(ast, k))
    && (forall j, k :: 0 <= j < k < |ast| && ast[j].Label? && ast[k].Label? ==> ast[j].lname != ast[k].lname)
  }

  class AssemblyParser {
    var ast: seq<Stat>
    var offset: nat

    predicate Valid()
      reads this
    {
      offset == SlotOf(ast, |ast|) && Placed(ast)
    }

    constructor ()
      ensures Valid() && ast == []
    {
      ast, offset := [], 0;
    }

    method PushInstruction(isa: Mnemonic)
      requires Valid()
      modifies this
      ensures Valid() && Accept(old(ast), Keyword(isa)) == Ok(ast)
    {
      hide Placed, SlotOf;
      var s := Instruction(Ins(isa, [Empty, Empty, Empty]));
      Extended(ast, s);
      ast := ast + [s];
      offset := offset + 1;
      if isa == Ld64 || isa == LdMapFd {
        offset := offset + 1;
      }
    }

    /** A label takes the slot the next instruction will have. */
    method PushLabel(id: string) returns (r: Result)
      requires Valid()
      modifies this
      ensures Valid() && r == Accept(old(ast), LabelDefinition(id)) && ast == (if r.Ok? then r.ast else old(ast))
    {
      hide Placed, SlotOf;
      var i := 0;
      while i < |ast|
        invariant 0 <= i <= |ast| && ast == old(ast) && Valid()
        invariant forall k :: 0 <= k < i ==> !(ast[k].Label? && ast[k].lname == id)
      {
        if ast[i].Label? && ast[i].lname == id {
          return Failed(DuplicateLabel);
        }
        i := i + 1;
      }
      assert !Defines(ast, id);
      Extended(ast, Label(id, offset));
      ast := ast + [Label(id, offset)];
      r := Ok(ast);
    }

    /** An operand goes to the first empty place of the last statement, which must be an
        instruction. */
    method PushOperand(op: Operand) returns (r: Result)
      requires Valid()
      modifies this
      ensures Valid() && r == AddOperand(old(ast), op) && ast == (if r.Ok? then r.ast else old(ast))
    {
      if |ast| < 1 {
        return Failed(UndefinedReferencing);
      }
      var last := ast[|ast| - 1];
      if !last.Instruction? {
        return Failed(NotAnInstruction);
      }
      var i := 0;
      while i < OPERANDS
        invariant 0 <= i <= OPERANDS && ast == old(ast) && Valid()
        invariant forall k :: 0 <= k < i ==> !last.ins.ops[k].Empty?
      {
        if last.ins.ops[i].Empty? {
          var changed := Instruction(Ins(last.ins.isa, last.ins.ops[i := op]));
          Replaced(ast, |ast| - 1, changed);
          ast := ast[|ast| - 1 := changed];
          return Ok(ast);
        }
        i := i + 1;
      }
      r := Failed(TooManyOperands);
    }

    /** Statements one after the other, until one is refused. */
    method Statements(tokens: seq<Token>) returns (r: Result)
      requires Valid()
      modifies this
      ensures Valid() && r == AcceptAll(old(ast), tokens) && (r.Ok? ==> ast == r.ast)
    {
      var i := 0;
      r := Ok(ast);
      while i < |tokens|
        invariant 0 <= i <= |tokens| && Valid() && r == Ok(ast)
        invariant AcceptAll(ast, tokens[i..]) == AcceptAll(old(ast), tokens)
      {
        match tokens[i] {
          case Keyword(isa) => PushInstruction(isa); r := Ok(ast);
          case LabelDefinition(id) => r := PushLabel(id);
          case Number(v) => r := PushOperand(Immediate(v));
          case RegisterName(n) => r := PushOperand(Register(n));
          case Identifier(id) => r := PushOperand(Reference(id));
        }
        if r.Failed? {
          return;
        }
        assert tokens[i..][1..] == tokens[i + 1..];
        i := i + 1;
      }
    }

    /** The first label of a name. */
    method LookupLabel(tree: seq<Stat>, id: string) returns (k: nat)
      ensures k == Find(tree, id, 0)
    {
      k := 0;
      while k < |tree| && !(tree[k].Label? && tree[k].lname == id)
        invariant 0 <= k <= |tree| && Find(tree, id, 0) == Find(tree, id, k)
      {
        k := k + 1;
      }
    }

    /** References of one instruction become distances from the slot after it. */
    method DeduceOperands(tree: seq<Stat>, ops: Operands, pc: nat) returns (r: Operands, ok: bool)
      ensures ok <==> forall j :: 0 <= j < OPERANDS ==> ops[j].Reference? ==> Find(tree, ops[j].id, 0) < |tree|
      ensures ok ==> r == [ResolvedOperand(tree, ops[0], pc), ResolvedOperand(tree, ops[1], pc), ResolvedOperand(tree, ops[2], pc)]
    {
      r, ok := ops, true;
      var j := 0;
      while j < OPERANDS
        invariant 0 <= j <= OPERANDS && ok
        invariant forall k :: 0 <= k < j ==> ops[k].Reference? ==> Find(tree, ops[k].id, 0) < |tree|
        invariant forall k :: 0 <= k < OPERANDS ==> r[k] == if k < j then ResolvedOperand(tree, ops[k], pc) else ops[k]
      {
        if r[j].Reference? {
          var k := LookupLabel(tree, r[j].id);
          if k == |tree| {
            ok := false;
            return;
          }
          r := r[j := Immediate(Distance(tree[k].off, pc))];
        }
        j := j + 1;
      }
    }

    /** The references of statement i, in place. */
    method DeduceStatement(ghost was: seq<Stat>, i: nat, pc: nat) returns (ok: bool)
      requires i < |was| && PartlyResolved(was, ast, i) && was[i].Instruction? && pc == SlotOf(was, i + 1)
      modifies this`ast
      ensures ok <==> UsesOnlyDefined(was, i)
      ensures ok ==> PartlyResolved(was, ast, i + 1)
    {
      var ops, found := DeduceOperands(ast, ast[i].ins.ops, pc);
      Found(was, ast, i, pc);
      hide Find, ResolvedOperand, UsesOnlyDefined, SlotOf;
      ok := found;
      if ok {
        ast := ast[i := Instruction(Ins(ast[i].ins.isa, ops))];
      }
    }

    /** One pass over the tree in place.  Labels are never rewritten, so looking one up in the
        partly rewritten tree finds what the original tree has. */
    method Deduce() returns (ok: bool)
      requires Valid()
      modifies this`ast
      ensures ok <==> AllDefined(old(ast))
      ensures ok ==> Valid() && ast == Resolved(old(ast))
    {
      ghost var was := ast;
      ResolvedIsPlaced(was);
      SlotOfStart(was);
      hide Placed, UsesOnlyDefined, SlotOf, Resolved, PartlyResolved, DefinedUpTo;
      PartlyStart(was);
      DefinedStep(was, 0);
      var i, pc := 0, 0;
      ok := true;
      while i < |ast|
        invariant 0 <= i <= |was| == |ast| && ok && pc == SlotOf(was, i) && PartlyResolved(was, ast, i)
        invariant DefinedUpTo(was, i)
      {
        SlotOfNext(was, i);
        PartlyAt(was, ast, i);
        DefinedStep(was, i);
        if ast[i].Instruction? {
          pc := pc + 1;
          if ast[i].ins.isa == Ld64 || ast[i].ins.isa == LdMapFd {
            pc := pc + 1;
          }
          ok := DeduceStatement(was, i, pc);
          if !ok {
            return;
          }
          PartlyAt(was, ast, i + 1);
        }
        i := i + 1;
      }
      AllResolved(was, ast);
    }

    /** One source file. */
    method ParseSource(tokens: seq<Token>) returns (r: Result)
      requires Valid() && ast == []
      modifies this
      ensures r == Parse(tokens)
    {
      r := Statements(tokens);
      if r.Failed? {
        return;
      }
      ghost var was := ast;
      var ok := Deduce();
      if !ok {
        return Failed(UndefinedIdentifier);
      }
      if offset < 1 {
        r := Failed(NoInstructions);
      } else if offset > MAX_INSNS {
        r := Failed(TooManyInstructions);
      } else {
        r := Ok(ast);
      }
    }
  }

  // Lemmas about growing and rewriting a tree ------------------------------------------------------------

  lemma Extended(ast: seq<Stat>, s: Stat)
    requires Placed(ast)
    requires s.Label? ==> s.off == SlotOf(ast, |ast|) && !Defines(ast, s.lname)
    ensures Placed(ast + [s]) && SlotOf(ast + [s], |ast| + 1) == SlotOf(ast, |ast|) + StatSlots(s)
  {
    hide SlotOf;
    var next := ast + [s];
    forall k | 0 <= k <= |ast|
      ensures SlotOf(next, k) == SlotOf(ast, k)
    {
      SlotOfPrefix(ast, [s], k);
    }
    SlotOfNext(next, |ast|);
    assert forall k :: 0 <= k < |ast| ==> next[k] == ast[k];
    assert next[|ast|] == s;
    forall k | 0 <= k < |next| && next[k].Label?
      ensures next[k].off == SlotOf(next, k)
    {
      assert k < |ast| ==> next[k] == ast[k];
    }
    forall j, k | 0 <= j < k < |next| && next[j].Label? && next[k].Label?
      ensures next[j].lname != next[k].lname
    {
      assert next[j] == ast[j];
      if k < |ast| {
        assert next[k] == ast[k];
      }
    }
  }

  lemma Replaced(ast: seq<Stat>, i: nat, s: Stat)
    requires i < |ast| && Placed(ast) && ast[i].Instruction? && s.Instruction? && s.ins.isa == ast[i].ins.isa
    ensures Placed(ast[i := s]) && SlotOf(ast[i := s], |ast|) == SlotOf(ast, |ast|)
  {
    forall k | 0 <= k <= |ast|
      ensures SlotOf(ast[i := s], k) == SlotOf(ast, k)
    {
      SlotOfSameShape(ast[i := s], ast, k);
    }
  }

  lemma ResolvedIsPlaced(ast: seq<Stat>)
    requires Placed(ast)
    ensures Placed(Resolved(ast)) && forall k :: 0 <= k <= |ast| ==> SlotOf(Resolved(ast), k) == SlotOf(ast, k)
  {
    forall k | 0 <= k <= |ast|
      ensures SlotOf(Resolved(ast), k) == SlotOf(ast, k)
    {
      SlotOfSameShape(Resolved(ast), ast, k);
    }
  }

  lemma {:induction false} SameFind(a: seq<Stat>, b: seq<Stat>, id: string, from: nat)
    requires |a| == |b| && from <= |a|
    requires forall k :: 0 <= k < |a| ==> (a[k].Label? || b[k].Label?) ==> a[k] == b[k]
    ensures Find(a, id, from) == Find(b, id, from)
    decreases |a| - from
  {
    if from < |a| && !(a[from].Label? && a[from].lname == id) {
      SameFind(a, b, id, from + 1);
    }
  }

  lemma SameLabels(was: seq<Stat>, ast: seq<Stat>, i: nat)
    requires PartlyResolved(was, ast, i)
    ensures forall id :: Find(ast, id, 0) == Find(was, id, 0)
    ensures forall k :: 0 <= k < |was| ==> (ast[k].Label? || was[k].Label?) ==> ast[k] == was[k]
  {
    forall id
      ensures Find(ast, id, 0) == Find(was, id, 0)
    {
      SameFind(ast, was, id, 0);
    }
  }

  lemma FindDefines(ast: seq<Stat>, id: string)
    ensures Find(ast, id, 0) < |ast| <==> Defines(ast, id)
  {
  }

  lemma AllResolved(was: seq<Stat>, ast: seq<Stat>)
    requires PartlyResolved(was, ast, |was|)
    ensures ast == Resolved(was)
  {
  }

  lemma DefinedStep(ast: seq<Stat>, i: nat)
    ensures DefinedUpTo(ast, 0)
    ensures i < |ast| && DefinedUpTo(ast, i) && UsesOnlyDefined(ast, i) ==> DefinedUpTo(ast, i + 1)
    ensures i < |ast| && !UsesOnlyDefined(ast, i) ==> !DefinedUpTo(ast, |ast|)
  {
  }

  lemma PartlyStart(ast: seq<Stat>)
    ensures PartlyResolved(ast, ast, 0)
  {
  }

  lemma PartlyAt(was: seq<Stat>, ast: seq<Stat>, i: nat)
    requires PartlyResolved(was, ast, i)
    ensures |ast| == |was|
    ensures i < |was| ==> ast[i] == was[i]
    ensures i < |was| && was[i].Label? ==> PartlyResolved(was, ast, i + 1) && UsesOnlyDefined(was, i)
  {
    if i < |was| && was[i].Label? {
      assert ResolvedStat(was, i) == was[i];
    }
  }

  /** What looking up in the partly rewritten tree means for the original one. */
  lemma Found(was: seq<Stat>, ast: seq<Stat>, i: nat, pc: nat)
    requires i < |was| && PartlyResolved(was, ast, i) && was[i].Instruction? && pc == SlotOf(was, i + 1)
    ensures UsesOnlyDefined(was, i)
            <==> forall j :: 0 <= j < OPERANDS ==> was[i].ins.ops[j].Reference? ==> Find(ast, was[i].ins.ops[j].id, 0) < |ast|
    ensures ResolvedStat(was, i)
            == Instruction(Ins(was[i].ins.isa, [ResolvedOperand(ast, was[i].ins.ops[0], pc),
                                                ResolvedOperand(ast, was[i].ins.ops[1], pc),
                                                ResolvedOperand(ast, was[i].ins.ops[2], pc)]))
  {
    SameLabels(was, ast, i);
    forall j | 0 <= j < OPERANDS && was[i].ins.ops[j].Reference?
      ensures Find(ast, was[i].ins.ops[j].id, 0) < |ast| <==> Defines(was, was[i].ins.ops[j].id)
    {
      FindDefines(was, was[i].ins.ops[j].id);
    }
  }

  // What an accepted source satisfies ----------------------------------------------------------------------

  lemma AcceptPlaced(ast: seq<Stat>, t: Token)
    requires Placed(ast) && Accept(ast, t).Ok?
    ensures Placed(Accept(ast, t).ast)
  {
    match t
    case Keyword(isa) => Extended(ast, Instruction(Ins(isa, [Empty, Empty, Empty])));
    case LabelDefinition(id) => Extended(ast, Label(id, SlotOf(ast, |ast|)));
    case Number(v) => OperandPlaced(ast, Immediate(v));
    case RegisterName(r) => OperandPlaced(ast, Register(r));
    case Identifier(id) => OperandPlaced(ast, Reference(id));
  }

  lemma OperandPlaced(ast: seq<Stat>, op: Operand)
    requires Placed(ast) && AddOperand(ast, op).Ok?
    ensures Placed(AddOperand(ast, op).ast)
  {
    var last := ast[|ast| - 1];
    Replaced(ast, |ast| - 1, Instruction(Ins(last.ins.isa, last.ins.ops[FirstEmpty(last.ins.ops) := op])));
  }

  lemma {:induction false} AcceptAllPlaced(ast: seq<Stat>, tokens: seq<Token>)
    requires Placed(ast) && AcceptAll(ast, tokens).Ok?
    ensures Placed(AcceptAll(ast, tokens).ast)
    decreases |tokens|
  {
    hide Placed, Accept;
    if tokens != [] {
      AcceptPlaced(ast, tokens[0]);
      AcceptAllPlaced(Accept(ast, tokens[0]).ast, tokens[1..]);
    }
  }

  /** In every accepted source a label carries the slot of the statement behind it, and each
      reference became an immediate that, added to the slot after its instruction, is the slot of
      the one label of that name, forward or backward. */
  lemma ReferencesReachTheirLabels(tokens: seq<Token>, i: nat, j: nat)
    requires Parse(tokens).Ok? && i < |Parse(tokens).ast| && j < OPERANDS
    requires var tree := AcceptAll([], tokens).ast; tree[i].Instruction? && tree[i].ins.ops[j].Reference?
    ensures var tree, r := AcceptAll([], tokens).ast, Parse(tokens).ast;
            && |r| == |tree| && r[i].Instruction? && r[i].ins.ops[j].Immediate?
            && exists k ::
                 && 0 <= k < |r| && r[k].Label? && r[k].lname == tree[i].ins.ops[j].id && r[k].off == SlotOf(r, k)
                 && SlotOf(r, i + 1) + r[i].ins.ops[j].val == r[k].off
                 && (forall m :: 0 <= m < |r| && r[m].Label? && r[m].lname == r[k].lname ==> m == k)
  {
    var tree, r := AcceptAll([], tokens).ast, Parse(tokens).ast;
    AcceptAllPlaced([], tokens);
    assert Placed([]) && r == Resolved(tree) && AllDefined(tree);
    hide AcceptAll, AllDefined, Resolved, Find, SlotOf, Placed, Distance;
    var k := ReferenceResolved(tree, i, j);
    ResolvedIsPlaced(tree);
    assert r[k].Label?;
    UniqueLabel(r, k);
  }

  lemma UniqueLabel(ast: seq<Stat>, k: nat)
    requires Placed(ast) && k < |ast| && ast[k].Label?
    ensures ast[k].off == SlotOf(ast, k)
    ensures forall m :: 0 <= m < |ast| && ast[m].Label? && ast[m].lname == ast[k].lname ==> m == k
  {
  }

  lemma ReferenceResolved(tree: seq<Stat>, i: nat, j: nat) returns (k: nat)
    requires Placed(tree) && AllDefined(tree) && SlotOf(tree, |tree|) <= MAX_INSNS
    requires i < |tree| && j < OPERANDS && tree[i].Instruction? && tree[i].ins.ops[j].Reference?
    ensures k < |tree| && tree[k].Label? && tree[k].lname == tree[i].ins.ops[j].id && Resolved(tree)[k] == tree[k]
    ensures Resolved(tree)[i].Instruction? && Resolved(tree)[i].ins.ops[j].Immediate?
    ensures SlotOf(tree, i + 1) + Resolved(tree)[i].ins.ops[j].val == tree[k].off == SlotOf(tree, k)
  {
    var id := tree[i].ins.ops[j].id;
    assert UsesOnlyDefined(tree, i);
    FindDefines(tree, id);
    k := Find(tree, id, 0);
    SlotOfMonotone(tree, k, |tree|);
    SlotOfMonotone(tree, i + 1, |tree|);
    SmallDistance(tree[k].off, SlotOf(tree, i + 1));
    hide Find, SlotOf, Distance, AllDefined, UsesOnlyDefined;
    assert Resolved(tree)[i].ins.ops[j] == ResolvedOperand(tree, tree[i].ins.ops[j], SlotOf(tree, i + 1));
  }

  /** An accepted source has between one slot and the limit. */
  lemma ParsedSize(tokens: seq<Token>)
    requires Parse(tokens).Ok?
    ensures 1 <= SlotOf(Parse(tokens).ast, |Parse(tokens).ast|) <= MAX_INSNS
  {
    var tree := AcceptAll([], tokens).ast;
    AcceptAllPlaced([], tokens);
    ResolvedIsPlaced(tree);
    assert |Parse(tokens).ast| == |tree|;
  }

  lemma SmallDistance(slot: nat, pc: nat)
    requires slot <= MAX_INSNS && pc <= MAX_INSNS
    ensures Distance(slot, pc) == slot - pc
  {
  }
}
