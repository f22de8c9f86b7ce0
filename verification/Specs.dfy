/** Package lists with version constraints: tokens, their grammar, and the list they are parsed into. */
module Specs {
  import opened Bytes
  import opened Version
  import opened Packages

  const COMMA: u8 := ',' as u8

  predicate TokenSpace(c: u8) { Whitespace(c) || c == COMMA }

  // ---------- tokens ----------

  /** Where the run of bytes that are token space, or that are not, ends. */
  function RunEnd(s: Bytes, i: nat, space: bool): (n: nat)
    requires i <= |s|
    ensures i <= n <= |s|
    ensures forall j :: i <= j < n ==> (TokenSpace(s[j]) <==> space)
    ensures n < |s| ==> (TokenSpace(s[n]) <==> !space)
    decreases |s| - i
  {
    if i < |s| && TokenSpace(s[i]) == space then RunEnd(s, i + 1, space) else i
  }

  /** All tokens of a text. */
  function Tokens(s: Bytes): seq<Bytes>
    decreases |s|
  {
    var beg := RunEnd(s, 0, true);
    var end := RunEnd(s, beg, false);
    if beg == end then [] else [s[beg..end]] + Tokens(s[end..])
  }

  method NextToken(s: Bytes) returns (head: Bytes, tail: Bytes)
    ensures var beg := RunEnd(s, 0, true); var end := RunEnd(s, beg, false);
      head == s[beg..end] && tail == s[end..]
    ensures Front(s, head, tail)
  {
    hide Tokens, Front;
    var i := 0;
    while i < |s| && TokenSpace(s[i])
      invariant i <= |s| && RunEnd(s, i, true) == RunEnd(s, 0, true)
    {
      i := i + 1;
    }
    var beg := i;
    while i < |s| && !TokenSpace(s[i])
      invariant beg <= i <= |s| && RunEnd(s, i, false) == RunEnd(s, beg, false)
    {
      i := i + 1;
    }
    head, tail := s[beg..i], s[i..];
    TokensFront(s, beg, i);
  }

  /** A tab, a newline, a carriage return, a space or a comma. */
  predicate Separates(c: u8) {
    c as int == 9 || c as int == 10 || c as int == 13 || c as int == 32 || c as int == 44
  }

  /** A token: not empty, and no byte of it separates tokens. */
  predicate Token(t: Bytes) {
    t != [] && forall i :: 0 <= i < |t| ==> !Separates(t[i])
  }

  predicate Blank(s: Bytes) { forall i :: 0 <= i < |s| ==> Separates(s[i]) }

  lemma {:induction false} RunEndIs(s: Bytes, i: nat, n: nat, space: bool)
    requires i <= n <= |s| && forall j :: i <= j < n ==> TokenSpace(s[j]) == space
    requires n < |s| ==> TokenSpace(s[n]) != space
    ensures RunEnd(s, i, space) == n
    decreases n - i
  {
    if i < n {
      RunEndIs(s, i + 1, n, space);
    }
  }

  /** The first token of a text, whatever separates it from the rest. */
  lemma TokensFirst(gap: Bytes, t: Bytes, rest: Bytes)
    requires Blank(gap) && Token(t) && (rest != [] ==> TokenSpace(rest[0]))
    ensures Tokens(gap + t + rest) == [t] + Tokens(rest)
  {
    var s := gap + t + rest;
    assert forall j :: 0 <= j < |t| ==> s[|gap| + j] == t[j];
    assert forall j :: |gap| <= j < |gap| + |t| ==> s[j] == t[j - |gap|];
    assert rest != [] ==> s[|gap| + |t|] == rest[0];
    RunEndIs(s, 0, |gap|, true);
    RunEndIs(s, |gap|, |gap| + |t|, false);
    assert s[|gap|..|gap| + |t|] == t && s[|gap| + |t|..] == rest;
  }

  lemma TokensBlank(s: Bytes)
    requires Blank(s)
    ensures Tokens(s) == []
  {
    RunEndIs(s, 0, |s|, true);
  }

  /** Tokens with a separator before each, and more separators at the end. */
  function Spaced(toks: seq<Bytes>, gaps: seq<Bytes>): Bytes
    requires |gaps| > |toks|
  {
    if toks == [] then gaps[0] else gaps[0] + toks[0] + Spaced(toks[1..], gaps[1..])
  }

  /** Separators between tokens are not empty. */
  ghost predicate Gaps(gaps: seq<Bytes>, n: nat) {
    && |gaps| == n + 1
    && forall i :: 0 <= i < |gaps| ==> Blank(gaps[i]) && (0 < i < n ==> gaps[i] != [])
  }

  /** Whatever separates them, tokens are read back. */
  lemma {:induction false} TokensOfSpaced(toks: seq<Bytes>, gaps: seq<Bytes>)
    requires forall i :: 0 <= i < |toks| ==> Token(toks[i])
    requires Gaps(gaps, |toks|)
    ensures Tokens(Spaced(toks, gaps)) == toks
    decreases |toks|
  {
    hide Tokens;
    if toks == [] {
      TokensBlank(gaps[0]);
    } else {
      var rest := Spaced(toks[1..], gaps[1..]);
      assert Gaps(gaps[1..], |toks[1..]|) by {
        assert forall i :: 0 <= i < |gaps[1..]| ==> gaps[1..][i] == gaps[i + 1];
      }
      TokensOfSpaced(toks[1..], gaps[1..]);
      RestStarts(toks, gaps);
      TokensFirst(gaps[0], toks[0], rest);
    }
  }

  lemma RestStarts(toks: seq<Bytes>, gaps: seq<Bytes>)
    requires toks != [] && Gaps(gaps, |toks|)
    ensures var rest := Spaced(toks[1..], gaps[1..]); rest != [] ==> TokenSpace(rest[0])
  {
    assert Blank(gaps[1]);
    if |toks| > 1 {
      assert gaps[1] != [];
    }
  }

  // ---------- operators ----------

  const LESS: u8 := '<' as u8
  const EQUAL: u8 := '=' as u8
  const MORE: u8 := '>' as u8

  function ParseOp(s: Bytes): VersOp {
    if s == [LESS] then LT
    else if s == [LESS, EQUAL] then LTE
    else if s == [EQUAL] then EQ
    else if s == [MORE, EQUAL] then GTE
    else if s == [MORE] then GT
    else NoOp
  }

  function OpName(op: VersOp): Bytes
    requires op != NoOp
  {
    match op
    case LT => [LESS]
    case LTE => [LESS, EQUAL]
    case EQ => [EQUAL]
    case GTE => [MORE, EQUAL]
    case GT => [MORE]
  }

  lemma OperatorsNamed(s: Bytes, op: VersOp)
    requires op != NoOp
    ensures ParseOp(s) == op <==> s == OpName(op)
    ensures Token(OpName(op))
  {
  }

  // ---------- the grammar ----------

  datatype SpecError = UnexpectedOp(token: Bytes) | MissingVersion(op: VersOp)

  function SpecTokens(spec: Spec): seq<Bytes> {
    if spec.op == NoOp then [spec.name] else [spec.name, OpName(spec.op), spec.version]
  }

  /** The tokens a list of specs is written with. */
  function Written(specs: seq<Spec>): seq<Bytes> {
    if specs == [] then [] else SpecTokens(specs[0]) + Written(specs[1..])
  }

  /** No name is an operator, and only an operator comes with a version. */
  predicate WellFormed(spec: Spec) {
    ParseOp(spec.name) == NoOp && (spec.op == NoOp ==> spec.version == [])
  }

  function Specs(toks: seq<Bytes>): Result<seq<Spec>, SpecError>
    decreases |toks|
  {
    if toks == [] then Ok([])
    else if ParseOp(toks[0]) != NoOp then Err(UnexpectedOp(toks[0]))
    else if |toks| == 1 || ParseOp(toks[1]) == NoOp then Before(Spec(toks[0], NoOp, []), Specs(toks[1..]))
    else if |toks| == 2 then Err(MissingVersion(ParseOp(toks[1])))
    else Before(Spec(toks[0], ParseOp(toks[1]), toks[2]), Specs(toks[3..]))
  }

  function Before(spec: Spec, more: Result<seq<Spec>, SpecError>): Result<seq<Spec>, SpecError> {
    if more.Ok? then Ok([spec] + more.value) else more
  }

  /** Parsing finds the one well-formed list the tokens are written from, if there is one. */
  lemma SpecsExactly(toks: seq<Bytes>, specs: seq<Spec>)
    ensures Specs(toks) == Ok(specs)
      <==> Written(specs) == toks && forall i :: 0 <= i < |specs| ==> WellFormed(specs[i])
  {
    if Specs(toks) == Ok(specs) {
      SpecsWritten(toks);
    }
    if Written(specs) == toks && forall i :: 0 <= i < |specs| ==> WellFormed(specs[i]) {
      WrittenParses(specs);
    }
  }

  lemma {:induction false} SpecsWritten(toks: seq<Bytes>)
    requires Specs(toks).Ok?
    ensures var specs := Specs(toks).value;
      Written(specs) == toks && forall i :: 0 <= i < |specs| ==> WellFormed(specs[i])
    decreases |toks|
  {
    hide ParseOp, OpName;
    if toks != [] {
      var specs := Specs(toks).value;
      if |toks| == 1 || ParseOp(toks[1]) == NoOp {
        SpecsWritten(toks[1..]);
        assert specs[1..] == Specs(toks[1..]).value;
        assert [toks[0]] + [] + toks[1..] == toks;
      } else {
        OperatorsNamed(toks[1], ParseOp(toks[1]));
        SpecsWritten(toks[3..]);
        assert specs[1..] == Specs(toks[3..]).value;
        assert [toks[0]] + [toks[1], toks[2]] + toks[3..] == toks;
      }
    }
  }

  lemma NameParses(name: Bytes, more: seq<Bytes>)
    requires ParseOp(name) == NoOp && (more != [] ==> ParseOp(more[0]) == NoOp)
    ensures Specs([name] + more) == Before(Spec(name, NoOp, []), Specs(more))
  {
    hide ParseOp;
    assert ([name] + more)[1..] == more;
  }

  lemma ConstraintParses(name: Bytes, op: VersOp, version: Bytes, more: seq<Bytes>)
    requires ParseOp(name) == NoOp && op != NoOp
    ensures Specs([name, OpName(op), version] + more) == Before(Spec(name, op, version), Specs(more))
  {
    hide ParseOp, OpName;
    OperatorsNamed(OpName(op), op);
    assert ([name, OpName(op), version] + more)[3..] == more;
  }

  /** The first spec's tokens are parsed into it, whatever tokens of other specs follow. */
  lemma SpecParses(spec: Spec, more: seq<Bytes>)
    requires WellFormed(spec) && (more != [] ==> ParseOp(more[0]) == NoOp)
    ensures Specs(SpecTokens(spec) + more) == Before(spec, Specs(more))
  {
    hide ParseOp, OpName, Specs;
    if spec.op == NoOp {
      NameParses(spec.name, more);
    } else {
      ConstraintParses(spec.name, spec.op, spec.version, more);
    }
  }

  lemma WrittenStarts(specs: seq<Spec>)
    requires forall i :: 0 <= i < |specs| ==> WellFormed(specs[i])
    ensures Written(specs) != [] ==> ParseOp(Written(specs)[0]) == NoOp
  {
    hide ParseOp, OpName;
    if specs != [] {
      assert WellFormed(specs[0]) && SpecTokens(specs[0])[0] == specs[0].name;
    }
  }

  lemma {:induction false} WrittenParses(specs: seq<Spec>)
    requires forall i :: 0 <= i < |specs| ==> WellFormed(specs[i])
    ensures Specs(Written(specs)) == Ok(specs)
    decreases |specs|
  {
    if specs != [] {
      hide ParseOp, Specs, SpecTokens, WellFormed;
      WrittenParses(specs[1..]);
      WrittenStarts(specs[1..]);
      SpecParses(specs[0], Written(specs[1..]));
      assert specs == [specs[0]] + specs[1..];
    }
  }

  // ---------- operators by their bytes ----------

  predicate Operator(s: Bytes, op: VersOp) {
    || (s == ['<' as u8] && op == LT)
    || (s == ['<' as u8, '=' as u8] && op == LTE)
    || (s == ['=' as u8] && op == EQ)
    || (s == ['>' as u8, '=' as u8] && op == GTE)
    || (s == ['>' as u8] && op == GT)
  }

  predicate AnOperator(s: Bytes) {
    Operator(s, LT) || Operator(s, LTE) || Operator(s, EQ) || Operator(s, GTE) || Operator(s, GT)
  }

  lemma OperatorBytes(s: Bytes, op: VersOp)
    ensures Operator(s, op) <==> op != NoOp && ParseOp(s) == op
    ensures AnOperator(s) <==> ParseOp(s) != NoOp
  {
  }

  /** A name, an operator and any version, written with any separators, are one constraint. */
  lemma ConstraintRead(name: Bytes, sign: Bytes, op: VersOp, version: Bytes, gaps: seq<Bytes>)
    requires Token(name) && !AnOperator(name) && Operator(sign, op) && Token(version)
    requires Gaps(gaps, 3)
    ensures Specs(Tokens(Spaced([name, sign, version], gaps))) == Ok([Spec(name, op, version)])
  {
    hide Tokens, Specs, ParseOp, OpName, Token, Operator, AnOperator, Spaced, Gaps;
    OperatorBytes(sign, op);
    OperatorBytes(name, LT);
    OperatorsNamed(sign, op);
    var toks := [name, sign, version];
    TokensOfSpaced(toks, gaps);
    ConstraintParses(name, op, version, []);
    assert toks == [name, OpName(op), version] + [];
    SpecsNone();
    assert [Spec(name, op, version)] + [] == [Spec(name, op, version)];
  }

  lemma SpecsNone()
    ensures Specs([]) == Ok([])
  {
  }

  /** The last spec, if there is one, is a name that an operator may follow. */
  predicate EndsInName(specs: seq<Spec>) {
    specs != [] && specs[|specs| - 1].op == NoOp
  }

  predicate AllWellFormed(specs: seq<Spec>) {
    forall i :: 0 <= i < |specs| ==> WellFormed(specs[i])
  }

  /** Where parsing fails: at an operator no name comes before, or at one that ends the list. */
  predicate FailsAt(toks: seq<Bytes>, specs: seq<Spec>, tok: Bytes, more: seq<Bytes>, e: SpecError) {
    && AllWellFormed(specs) && AnOperator(tok) && toks == Written(specs) + ([tok] + more)
    && if EndsInName(specs) then more == [] && e.MissingVersion? && Operator(tok, e.op)
       else e == UnexpectedOp(tok)
  }

  /** Parsing fails exactly there. */
  lemma SpecsFail(toks: seq<Bytes>, e: SpecError)
    ensures Specs(toks) == Err(e) <==> exists specs, tok, more :: FailsAt(toks, specs, tok, more, e)
  {
    hide FailsAt, Specs;
    if Specs(toks) == Err(e) {
      var specs, tok, more := FailureFound(toks);
    }
    if specs, tok, more :| FailsAt(toks, specs, tok, more, e) {
      FailureReported(toks, specs, tok, more, e);
    }
  }

  /** A spec in front of the failing list. */
  lemma FailsLater(first: Spec, toks: seq<Bytes>, specs: seq<Spec>, tok: Bytes, more: seq<Bytes>, e: SpecError)
    requires WellFormed(first) && (specs == [] ==> first.op != NoOp) && FailsAt(toks, specs, tok, more, e)
    ensures FailsAt(SpecTokens(first) + toks, [first] + specs, tok, more, e)
  {
    hide WellFormed, SpecTokens, AnOperator, Operator;
    var all := [first] + specs;
    assert all[1..] == specs;
    assert Written(all) + ([tok] + more) == SpecTokens(first) + (Written(specs) + ([tok] + more));
    assert AllWellFormed(all) by {
      assert forall i :: 0 < i < |all| ==> all[i] == specs[i - 1];
    }
    if specs != [] {
      assert all[|all| - 1] == specs[|specs| - 1];
    }
  }

  lemma FailsFirst(toks: seq<Bytes>, specs: seq<Spec>, tok: Bytes, more: seq<Bytes>, e: SpecError)
    requires toks != [] && ParseOp(toks[0]) == NoOp && FailsAt(toks, specs, tok, more, e)
    ensures specs != []
  {
    hide ParseOp, Operator;
    OperatorBytes(tok, LT);
    assert specs == [] ==> Written(specs) + ([tok] + more) == [tok] + more;
  }

  lemma {:induction false} FailureFound(toks: seq<Bytes>) returns (specs: seq<Spec>, tok: Bytes, more: seq<Bytes>)
    requires Specs(toks).Err?
    ensures FailsAt(toks, specs, tok, more, Specs(toks).error)
    decreases |toks|
  {
    hide ParseOp, OpName, AnOperator, Operator, FailsAt;
    if ParseOp(toks[0]) != NoOp {
      specs, tok, more := [], toks[0], toks[1..];
      FailsHere(toks);
    } else if |toks| == 1 || ParseOp(toks[1]) == NoOp {
      var first := Spec(toks[0], NoOp, []);
      specs, tok, more := FailureFound(toks[1..]);
      FailsFirst(toks[1..], specs, tok, more, Specs(toks).error);
      FailsLater(first, toks[1..], specs, tok, more, Specs(toks).error);
      assert SpecTokens(first) + toks[1..] == toks;
      specs := [first] + specs;
    } else if |toks| == 2 {
      specs, tok, more := [Spec(toks[0], NoOp, [])], toks[1], [];
      FailsLast(toks);
    } else {
      var first := Spec(toks[0], ParseOp(toks[1]), toks[2]);
      OperatorsNamed(toks[1], first.op);
      specs, tok, more := FailureFound(toks[3..]);
      FailsLater(first, toks[3..], specs, tok, more, Specs(toks).error);
      assert SpecTokens(first) + toks[3..] == toks;
      specs := [first] + specs;
    }
  }

  lemma FailsHere(toks: seq<Bytes>)
    requires toks != [] && ParseOp(toks[0]) != NoOp
    ensures FailsAt(toks, [], toks[0], toks[1..], UnexpectedOp(toks[0]))
  {
    hide ParseOp, Operator;
    OperatorBytes(toks[0], LT);
    assert toks == [] + ([toks[0]] + toks[1..]);
  }

  lemma FailsLast(toks: seq<Bytes>)
    requires |toks| == 2 && ParseOp(toks[0]) == NoOp && ParseOp(toks[1]) != NoOp
    ensures FailsAt(toks, [Spec(toks[0], NoOp, [])], toks[1], [], MissingVersion(ParseOp(toks[1])))
  {
    hide ParseOp, Operator, AnOperator;
    OperatorBytes(toks[1], ParseOp(toks[1]));
    var specs := [Spec(toks[0], NoOp, [])];
    assert Written(specs[1..]) == [];
    assert toks == Written(specs) + ([toks[1]] + []);
  }

  lemma {:induction false} FailureReported(toks: seq<Bytes>, specs: seq<Spec>, tok: Bytes, more: seq<Bytes>, e: SpecError)
    requires FailsAt(toks, specs, tok, more, e)
    ensures Specs(toks) == Err(e)
    decreases |specs|
  {
    hide ParseOp, OpName, AnOperator, Operator, Specs;
    if |specs| == 0 || (|specs| == 1 && specs[0].op == NoOp) {
      ReportedHere(toks, specs, tok, more, e);
    } else {
      var rest := Written(specs[1..]) + ([tok] + more);
      assert toks == SpecTokens(specs[0]) + rest;
      assert AllWellFormed(specs[1..]);
      assert specs[1..] != [] ==> specs[1..][|specs[1..]| - 1] == specs[|specs| - 1];
      FailureReported(rest, specs[1..], tok, more, e);
      assert WellFormed(specs[0]);
      if specs[0].op == NoOp {
        assert WellFormed(specs[1]) && rest[0] == specs[1].name;
        NameParses(specs[0].name, rest);
      } else {
        ConstraintParses(specs[0].name, specs[0].op, specs[0].version, rest);
      }
    }
  }

  lemma ReportedHere(toks: seq<Bytes>, specs: seq<Spec>, tok: Bytes, more: seq<Bytes>, e: SpecError)
    requires FailsAt(toks, specs, tok, more, e) && (|specs| == 0 || (|specs| == 1 && specs[0].op == NoOp))
    ensures Specs(toks) == Err(e)
  {
    hide ParseOp, OpName, AnOperator, Operator;
    OperatorBytes(tok, LT);
    if specs == [] {
      assert toks == [tok] + more;
    } else {
      OperatorBytes(tok, e.op);
      assert WellFormed(specs[0]) && Written(specs[1..]) == [];
      assert toks == [specs[0].name, tok];
    }
  }

  // ---------- the parser ----------

  /** The tokens of all arguments. */
  function AllTokens(args: seq<Bytes>): seq<Bytes> {
    if args == [] then [] else Tokens(args[0]) + AllTokens(args[1..])
  }

  function Reversed(specs: seq<Spec>): (r: seq<Spec>)
    ensures |r| == |specs|
  {
    if specs == [] then [] else Reversed(specs[1..]) + [specs[0]]
  }

  datatype Open = Closed | Named | Opped

  predicate Fits(list: seq<Spec>, open: Open) {
    && (open != Closed ==> list != [] && ParseOp(list[0].name) == NoOp && list[0].version == [])
    && (open == Named ==> list[0].op == NoOp)
    && (open == Opped ==> list[0].op != NoOp)
  }

  /** The tokens an unfinished list stands for, before those to come. */
  function Pending(list: seq<Spec>, open: Open, toks: seq<Bytes>): seq<Bytes>
    requires Fits(list, open)
  {
    match open
    case Closed => toks
    case Named => [list[0].name] + toks
    case Opped => [list[0].name, OpName(list[0].op)] + toks
  }

  /** The result of going on with more tokens. */
  ghost function Outcome(list: seq<Spec>, open: Open, toks: seq<Bytes>): Result<seq<Spec>, SpecError>
    requires Fits(list, open)
  {
    match Specs(Pending(list, open, toks))
    case Err(e) => Err(e)
    case Ok(specs) => Ok(Reversed(specs) + if open == Closed then list else list[1..])
  }

  /** What one token does to the list: it starts a spec, gives its operator, or gives its version. */
  function Took(list: seq<Spec>, open: Open, tok: Bytes): (seq<Spec>, Open)
    requires Fits(list, open)
  {
    match open
    case Closed => ([Spec(tok, NoOp, [])] + list, Named)
    case Named =>
      if ParseOp(tok) == NoOp then ([Spec(tok, NoOp, [])] + list, Named)
      else ([list[0].(op := ParseOp(tok))] + list[1..], Opped)
    case Opped => ([list[0].(version := tok)] + list[1..], Closed)
  }

  /** A token that starts, names or completes the spec that is open belongs to the same tokens as before. */
  lemma TookSame(list: seq<Spec>, open: Open, tok: Bytes, toks: seq<Bytes>)
    requires Fits(list, open) && (open == Closed ==> ParseOp(tok) == NoOp)
    requires open == Closed || (open == Named && ParseOp(tok) != NoOp)
    ensures var (next, now) := Took(list, open, tok);
      Fits(next, now) && Outcome(next, now, toks) == Outcome(list, open, [tok] + toks)
  {
    hide ParseOp, OpName, Specs, Reversed;
    var (next, now) := Took(list, open, tok);
    if open == Closed {
      assert next[1..] == list;
    } else {
      OperatorsNamed(tok, ParseOp(tok));
      assert next[1..] == list[1..];
    }
    assert Pending(next, now, toks) == Pending(list, open, [tok] + toks);
  }

  lemma TookName(list: seq<Spec>, tok: Bytes, toks: seq<Bytes>)
    requires Fits(list, Named) && ParseOp(tok) == NoOp
    ensures var (next, now) := Took(list, Named, tok);
      Fits(next, now) && Outcome(next, now, toks) == Outcome(list, Named, [tok] + toks)
  {
    hide ParseOp, OpName, Specs, Reversed;
    var (next, now) := Took(list, Named, tok);
    var p := Pending(list, Named, [tok] + toks);
    assert p == [list[0].name] + ([tok] + toks);
    assert Pending(next, now, toks) == [tok] + toks && next[1..] == list;
    NameParses(list[0].name, [tok] + toks);
    BeforeReversed(list[0], Specs([tok] + toks), list);
    assert list[0] == Spec(list[0].name, NoOp, []);
  }

  lemma TookVersion(list: seq<Spec>, tok: Bytes, toks: seq<Bytes>)
    requires Fits(list, Opped)
    ensures var (next, now) := Took(list, Opped, tok);
      Fits(next, now) && Outcome(next, now, toks) == Outcome(list, Opped, [tok] + toks)
  {
    hide ParseOp, OpName, Specs, Reversed;
    var (next, now) := Took(list, Opped, tok);
    var p := Pending(list, Opped, [tok] + toks);
    assert p == [list[0].name, OpName(list[0].op), tok] + toks;
    ConstraintParses(list[0].name, list[0].op, tok, toks);
    BeforeReversed(next[0], Specs(toks), next);
    assert next[1..] == list[1..];
  }

  lemma TookKeeps(list: seq<Spec>, open: Open, tok: Bytes, toks: seq<Bytes>)
    requires Fits(list, open) && (open == Closed ==> ParseOp(tok) == NoOp)
    ensures var (next, now) := Took(list, open, tok);
      Fits(next, now) && Outcome(next, now, toks) == Outcome(list, open, [tok] + toks)
  {
    hide ParseOp, Fits, Outcome, Took;
    if open == Opped {
      TookVersion(list, tok, toks);
    } else if open == Named && ParseOp(tok) == NoOp {
      TookName(list, tok, toks);
    } else {
      TookSame(list, open, tok, toks);
    }
  }

  lemma BeforeReversed(spec: Spec, more: Result<seq<Spec>, SpecError>, list: seq<Spec>)
    requires list != [] && list[0] == spec
    ensures more.Ok? ==> Reversed(Before(spec, more).value) + list[1..] == Reversed(more.value) + list
  {
    if more.Ok? {
      var specs := Before(spec, more).value;
      ReversedOnto(specs, list);
      assert specs[1..] == more.value;
    }
  }

  /** A first spec ends up where the others are put on top of it. */
  lemma ReversedOnto(specs: seq<Spec>, list: seq<Spec>)
    requires specs != [] && list != [] && specs[0] == list[0]
    ensures Reversed(specs) + list[1..] == Reversed(specs[1..]) + list
  {
    var more := Reversed(specs[1..]);
    assert Reversed(specs) == more + [specs[0]];
    hide Reversed;
    assert list == [list[0]] + list[1..];
    assert more + [specs[0]] + list[1..] == more + ([specs[0]] + list[1..]);
  }

  lemma FailsAtOperator(list: seq<Spec>, tok: Bytes, toks: seq<Bytes>)
    requires Fits(list, Closed) && ParseOp(tok) != NoOp
    ensures Outcome(list, Closed, [tok] + toks) == Err(UnexpectedOp(tok))
  {
    hide ParseOp;
  }

  lemma AtEnd(list: seq<Spec>, open: Open)
    requires Fits(list, open)
    ensures Outcome(list, open, []) == if open == Opped then Err(MissingVersion(list[0].op)) else Ok(list)
  {
    hide ParseOp, OpName;
    if open == Opped {
      OperatorsNamed(OpName(list[0].op), list[0].op);
    } else if open == Named {
      assert [list[0].name] + [] == [list[0].name];
      assert Specs([list[0].name][1..]) == Ok([]);
      assert Specs([list[0].name]) == Ok([list[0]] + []);
      assert list == [list[0]] + list[1..];
      assert Reversed([list[0]]) == [list[0]];
    } else {
      assert [] + list == list;
    }
  }

  /** What a call for a token gives: none at the end, else the first token and a shorter text. */
  ghost predicate Front(s: Bytes, head: Bytes, tail: Bytes) {
    && Tokens(s) == (if head == [] then [] else [head] + Tokens(tail))
    && (head != [] ==> |tail| < |s|)
  }

  lemma TokensFront(s: Bytes, beg: nat, end: nat)
    requires beg == RunEnd(s, 0, true) && end == RunEnd(s, beg, false)
    ensures Front(s, s[beg..end], s[end..])
  {
    hide RunEnd, TokenSpace;
    assert |s[beg..end]| == end - beg;
  }

  lemma TokensStep(s: Bytes, head: Bytes, tail: Bytes, more: seq<Bytes>)
    requires Front(s, head, tail)
    ensures head == [] ==> Tokens(s) + more == more
    ensures head != [] ==> |tail| < |s| && Tokens(s) + more == [head] + (Tokens(tail) + more)
  {
    FrontIs(s, head, tail);
    hide Tokens, Front;
    InFront(head, Tokens(tail), more);
  }

  lemma FrontIs(s: Bytes, head: Bytes, tail: Bytes)
    requires Front(s, head, tail)
    ensures Tokens(s) == if head == [] then [] else [head] + Tokens(tail)
    ensures head != [] ==> |tail| < |s|
  {
    hide Tokens;
  }

  lemma InFront(head: Bytes, toks: seq<Bytes>, more: seq<Bytes>)
    ensures [head] + toks + more == [head] + (toks + more) && [] + more == more
  {
  }

  /** The parser puts each spec in front of the list, so that the list runs from the last spec to the first. */
  method ParseSpecs(args: seq<Bytes>) returns (r: Result<seq<Spec>, SpecError>)
    ensures r == match Specs(AllTokens(args))
                 case Err(e) => Err(e)
                 case Ok(specs) => Ok(Reversed(specs))
  {
    hide Outcome, Tokens, Specs, ParseOp, Front;
    var list: seq<Spec>, open := [], Closed;
    Starts(AllTokens(args));
    assert args[0..] == args;
    for i := 0 to |args|
      invariant Fits(list, open)
      invariant Outcome([], Closed, AllTokens(args)) == Outcome(list, open, AllTokens(args[i..]))
    {
      var tail := args[i];
      ghost var more := AllTokens(args[i + 1..]);
      assert args[i..][1..] == args[i + 1..];
      while true
        invariant Fits(list, open)
        invariant Outcome([], Closed, AllTokens(args)) == Outcome(list, open, Tokens(tail) + more)
        decreases |tail|
      {
        ghost var was := tail;
        var tok;
        tok, tail := NextToken(tail);
        TokensStep(was, tok, tail, more);
        if tok == [] {
          break;
        }
        if open == Closed && ParseOp(tok) != NoOp {
          FailsAtOperator(list, tok, Tokens(tail) + more);
          return Err(UnexpectedOp(tok));
        }
        TookKeeps(list, open, tok, Tokens(tail) + more);
        var (next, now) := Took(list, open, tok);
        list, open := next, now;
      }
    }
    AtEnd(list, open);
    r := if open == Opped then Err(MissingVersion(list[0].op)) else Ok(list);
  }

  lemma Starts(toks: seq<Bytes>)
    ensures Fits([], Closed)
    ensures Outcome([], Closed, toks)
      == match Specs(toks)
         case Err(e) => Err(e)
         case Ok(specs) => Ok(Reversed(specs))
  {
    hide Specs;
    if Specs(toks).Ok? {
      assert Reversed(Specs(toks).value) + [] == Reversed(Specs(toks).value);
    }
  }

  /** A printed list, however it is spaced, is parsed into the same specs. */
  lemma PrintedSpecs(specs: seq<Spec>, gaps: seq<Bytes>)
    requires forall i :: 0 <= i < |specs| ==>
      WellFormed(specs[i]) && Token(specs[i].name) && (specs[i].op != NoOp ==> Token(specs[i].version))
    requires Gaps(gaps, |Written(specs)|)
    ensures Specs(AllTokens([Spaced(Written(specs), gaps)])) == Ok(specs)
  {
    hide Specs, Tokens, WellFormed, Token;
    var toks := Written(specs);
    WrittenTokens(specs);
    TokensOfSpaced(toks, gaps);
    var one := [Spaced(toks, gaps)];
    assert AllTokens(one[1..]) == [];
    assert AllTokens(one) == toks + [] == toks;
    WrittenParses(specs);
  }

  lemma {:induction false} WrittenTokens(specs: seq<Spec>)
    requires forall i :: 0 <= i < |specs| ==> Token(specs[i].name) && (specs[i].op != NoOp ==> Token(specs[i].version))
    ensures forall i :: 0 <= i < |Written(specs)| ==> Token(Written(specs)[i])
  {
    hide Token;
    if specs != [] {
      WrittenTokens(specs[1..]);
      if specs[0].op != NoOp {
        OperatorsNamed([], specs[0].op);
      }
    }
  }
}
