/** Variable expansion: a recursive macro expander run on a bounded explicit stack. */
module Expand {
  import opened Bytes

  type Vars = map<Bytes, Bytes>

  datatype ExpandError = TooDeep | Undefined(name: Bytes)

  /** What has been printed, and the failure that stopped the printing. */
  datatype Outcome = Outcome(out: Bytes, error: Option<ExpandError>) {
    function Then(next: Outcome): Outcome {
      if error.Some? then this else Outcome(out + next.out, next.error)
    }
  }

  const SLOTS := 128
  const DOLLAR: u8 := '$' as u8
  const OPEN: u8 := '{' as u8
  const CLOSE: u8 := '}' as u8

  /** Command-line and built-in variables shadow those of the package. */
  function Lookup(global: Vars, env: Vars, name: Bytes): Option<Bytes> {
    if name in global then Some(global[name])
    else if name in env then Some(env[name])
    else None
  }

  // ---------- specification: recursive expansion ----------

  predicate Special(s: Bytes, i: nat) {
    i + 1 < |s| && s[i] == DOLLAR && (s[i + 1] == OPEN || s[i + 1] == DOLLAR)
  }

  /** The first reference or escape at or after `i`, or the length if there is none. */
  function Next(s: Bytes, i: nat): (n: nat)
    requires i <= |s|
    ensures i <= n <= |s|
    ensures n < |s| ==> Special(s, n)
    ensures forall j :: i <= j < n ==> !Special(s, j)
    decreases |s| - i
  {
    if i == |s| || Special(s, i) then i else Next(s, i + 1)
  }

  /** Where the name starting at `i` ends: at the closing brace, or at the end of the string. */
  function NameEnd(s: Bytes, i: nat): (n: nat)
    requires i <= |s|
    ensures i <= n <= |s|
    ensures n < |s| ==> s[n] == CLOSE
    ensures forall j :: i <= j < n ==> s[j] != CLOSE
    decreases |s| - i
  {
    if i == |s| || s[i] == CLOSE then i else NameEnd(s, i + 1)
  }

  function RefName(s: Bytes, i: nat): Bytes
    requires Special(s, i)
  {
    s[i + 2..NameEnd(s, i + 2)]
  }

  function RefTail(s: Bytes, i: nat): (tail: Bytes)
    requires Special(s, i)
    ensures |tail| < |s|
  {
    var end := NameEnd(s, i + 2);
    s[if end < |s| then end + 1 else end..]
  }

  /** The prefix, then the expansion of the value one level deeper, then that of the rest. */
  function Expansion(global: Vars, env: Vars, level: nat, s: Bytes): Outcome
    decreases SLOTS - level, |s|
  {
    var i := Next(s, 0);
    if i == |s| then
      Outcome(s, None)
    else if s[i + 1] == DOLLAR then
      Outcome(s[..i + 1], None).Then(Expansion(global, env, level, s[i + 2..]))
    else if level >= SLOTS - 1 then
      Outcome([], Some(TooDeep))
    else
      match Lookup(global, env, RefName(s, i))
      case None => Outcome(s[..i], Some(Undefined(RefName(s, i))))
      case Some(value) =>
        Outcome(s[..i], None)
        .Then(Expansion(global, env, level + 1, value))
        .Then(Expansion(global, env, level, RefTail(s, i)))
  }

  /** How often the loop below runs for one string. */
  ghost function Cost(global: Vars, env: Vars, level: nat, s: Bytes): (n: nat)
    ensures n > 0
    decreases SLOTS - level, |s|
  {
    var i := Next(s, 0);
    if i == |s| then 1
    else if s[i + 1] == DOLLAR then 1 + Cost(global, env, level, s[i + 2..])
    else if level >= SLOTS - 1 then 1
    else
      match Lookup(global, env, RefName(s, i))
      case None => 1
      case Some(value) => 1 + Cost(global, env, level + 1, value) + Cost(global, env, level, RefTail(s, i))
  }

  /** What is left to do for a stack: the string in slot `k` is `k` substitutions deep. */
  ghost function Rest(global: Vars, env: Vars, stack: seq<Bytes>): Outcome {
    if stack == [] then Outcome([], None)
    else
      var k := |stack| - 1;
      Expansion(global, env, k, stack[k]).Then(Rest(global, env, stack[..k]))
  }

  ghost function RestCost(global: Vars, env: Vars, stack: seq<Bytes>): nat {
    if stack == [] then 0
    else
      var k := |stack| - 1;
      Cost(global, env, k, stack[k]) + RestCost(global, env, stack[..k])
  }

  // ---------- what one round of the loop does ----------

  lemma RestPush(global: Vars, env: Vars, below: seq<Bytes>, s: Bytes)
    ensures Rest(global, env, below + [s]) == Expansion(global, env, |below|, s).Then(Rest(global, env, below))
    ensures RestCost(global, env, below + [s]) == Cost(global, env, |below|, s) + RestCost(global, env, below)
  {
    hide Expansion, Cost;
    assert (below + [s])[..|below|] == below;
  }

  lemma RestOne(global: Vars, env: Vars, s: Bytes)
    ensures Rest(global, env, [s]) == Expansion(global, env, 0, s)
    ensures Rest(global, env, []) == Outcome([], None)
  {
    hide Expansion;
    RestPush(global, env, [], s);
    assert [] + [s] == [s];
  }

  lemma EscapeExpansion(global: Vars, env: Vars, level: nat, s: Bytes, i: nat)
    requires Special(s, i) && i == Next(s, 0) && s[i + 1] == DOLLAR
    ensures Expansion(global, env, level, s)
         == Outcome(s[..i + 1], None).Then(Expansion(global, env, level, s[i + 2..]))
    ensures Cost(global, env, level, s) == 1 + Cost(global, env, level, s[i + 2..])
  {
    hide Next, NameEnd, RefName, RefTail, Lookup;
  }

  lemma ReferenceExpansion(global: Vars, env: Vars, level: nat, s: Bytes, i: nat, value: Bytes)
    requires Special(s, i) && i == Next(s, 0) && s[i + 1] == OPEN && level < SLOTS - 1
    requires Lookup(global, env, RefName(s, i)) == Some(value)
    ensures Expansion(global, env, level, s)
         == Outcome(s[..i], None)
            .Then(Expansion(global, env, level + 1, value))
            .Then(Expansion(global, env, level, RefTail(s, i)))
    ensures Cost(global, env, level, s)
         == 1 + Cost(global, env, level + 1, value) + Cost(global, env, level, RefTail(s, i))
  {
    hide Next, NameEnd, Lookup;
  }

  lemma PlainExpansion(global: Vars, env: Vars, level: nat, s: Bytes)
    requires Next(s, 0) == |s|
    ensures Expansion(global, env, level, s) == Outcome(s, None)
    ensures Cost(global, env, level, s) == 1
  {
    hide Next;
  }

  lemma FailingExpansion(global: Vars, env: Vars, level: nat, s: Bytes, i: nat)
    requires Special(s, i) && i == Next(s, 0) && s[i + 1] == OPEN
    ensures level >= SLOTS - 1 ==> Expansion(global, env, level, s) == Outcome([], Some(TooDeep))
    ensures level < SLOTS - 1 && Lookup(global, env, RefName(s, i)) == None ==>
      Expansion(global, env, level, s) == Outcome(s[..i], Some(Undefined(RefName(s, i))))
  {
    hide Next, NameEnd, Lookup;
  }

  lemma PlainRound(global: Vars, env: Vars, below: seq<Bytes>, s: Bytes, out: Bytes)
    requires Next(s, 0) == |s|
    ensures Outcome(out, None).Then(Rest(global, env, below + [s])) == Outcome(out + s, None).Then(Rest(global, env, below))
    ensures RestCost(global, env, below + [s]) > RestCost(global, env, below)
  {
    RestPush(global, env, below, s);
  }

  lemma EscapeRound(global: Vars, env: Vars, below: seq<Bytes>, s: Bytes, i: nat, out: Bytes)
    requires Special(s, i) && i == Next(s, 0) && s[i + 1] == DOLLAR
    ensures Outcome(out, None).Then(Rest(global, env, below + [s]))
         == Outcome(out + s[..i + 1], None).Then(Rest(global, env, below + [s[i + 2..]]))
    ensures RestCost(global, env, below + [s]) > RestCost(global, env, below + [s[i + 2..]])
  {
    hide Next, Expansion, Cost;
    RestPush(global, env, below, s);
    RestPush(global, env, below, s[i + 2..]);
    EscapeExpansion(global, env, |below|, s, i);
  }

  lemma ReferenceRound(global: Vars, env: Vars, below: seq<Bytes>, s: Bytes, i: nat, out: Bytes, value: Bytes)
    requires Special(s, i) && i == Next(s, 0) && s[i + 1] == OPEN && |below| < SLOTS - 1
    requires Lookup(global, env, RefName(s, i)) == Some(value)
    ensures Outcome(out, None).Then(Rest(global, env, below + [s]))
         == Outcome(out + s[..i], None).Then(Rest(global, env, below + [RefTail(s, i), value]))
    ensures RestCost(global, env, below + [s]) > RestCost(global, env, below + [RefTail(s, i), value])
  {
    hide Next, NameEnd, Expansion, Cost, Rest, RestCost;
    RestPush(global, env, below, s);
    RestPush(global, env, below, RefTail(s, i));
    RestPush(global, env, below + [RefTail(s, i)], value);
    assert below + [RefTail(s, i), value] == below + [RefTail(s, i)] + [value];
    ReferenceExpansion(global, env, |below|, s, i, value);
  }

  lemma FailingRound(global: Vars, env: Vars, below: seq<Bytes>, s: Bytes, i: nat, out: Bytes)
    requires Special(s, i) && i == Next(s, 0) && s[i + 1] == OPEN
    requires |below| >= SLOTS - 1 || Lookup(global, env, RefName(s, i)) == None
    ensures Outcome(out, None).Then(Rest(global, env, below + [s]))
         == if |below| >= SLOTS - 1 then Outcome(out, Some(TooDeep))
            else Outcome(out + s[..i], Some(Undefined(RefName(s, i))))
  {
    hide Next, NameEnd;
    assert (below + [s])[..|below|] == below;
  }

  // ---------- the expander ----------

  method FindNext(s: Bytes) returns (i: nat)
    ensures i == Next(s, 0)
  {
    i := 0;
    while i < |s| - 1 && !Special(s, i)
      invariant i <= |s| && Next(s, 0) == Next(s, i)
    {
      i := i + 1;
    }
    if i >= |s| - 1 {
      assert Next(s, i) == |s|;
      i := |s|;
    }
  }

  method FindClose(s: Bytes, start: nat) returns (end: nat)
    requires start <= |s|
    ensures end == NameEnd(s, start)
  {
    end := start;
    while end < |s| && s[end] != CLOSE
      invariant start <= end <= |s| && NameEnd(s, start) == NameEnd(s, end)
    {
      end := end + 1;
    }
  }

  /** The name a reference at `i` asks for, and what follows it. */
  method SplitReference(s: Bytes, i: nat) returns (name: Bytes, tail: Bytes)
    requires Special(s, i)
    ensures name == RefName(s, i) && tail == RefTail(s, i)
  {
    var end := FindClose(s, i + 2);
    name := s[i + 2..end];
    end := if end < |s| then end + 1 else end;
    tail := s[end..];
  }

  method Put(stack: array<Bytes>, top: nat, s: Bytes)
    requires top < stack.Length
    modifies stack
    ensures stack[..top + 1] == old(stack[..top]) + [s]
    ensures stack[top] == s
  {
    stack[top] := s;
  }

  /** Prints the expansion of `str` after what `before` holds. */
  method ExpandString(before: Bytes, global: Vars, env: Vars, str: Bytes) returns (r: Outcome)
    ensures r == Outcome(before, None).Then(Expansion(global, env, 0, str))
  {
    hide Expansion, Cost, Rest, RestCost, Next, RefName, RefTail, Lookup;
    var stack := new Bytes[SLOTS];
    var out := before;
    var top := 0;
    Put(stack, top, str);
    RestOne(global, env, str);
    assert stack[..1] == [str];
    ghost var goal := Outcome(before, None).Then(Expansion(global, env, 0, str));
    while top >= 0
      invariant -1 <= top < SLOTS == stack.Length
      invariant Outcome(out, None).Then(Rest(global, env, stack[..top + 1])) == goal
      decreases RestCost(global, env, stack[..top + 1])
    {
      var s := stack[top];
      ghost var below := stack[..top];
      assert stack[..top + 1] == below + [s];
      top := top - 1;
      var i := FindNext(s);
      if i == |s| {
        PlainRound(global, env, below, s, out);
        out := out + s;
      } else if s[i + 1] == DOLLAR {
        EscapeRound(global, env, below, s, i, out);
        out := out + s[..i + 1];
        top := top + 1;
        Put(stack, top, s[i + 2..]);
      } else {
        if top >= SLOTS - 2 {
          FailingRound(global, env, below, s, i, out);
          return Outcome(out, Some(TooDeep));
        }
        var name, tail := SplitReference(s, i);
        top := top + 1;
        Put(stack, top, tail);
        var value := Lookup(global, env, name);
        if value == None {
          FailingRound(global, env, below, s, i, out);
          return Outcome(out + s[..i], Some(Undefined(name)));
        }
        ReferenceRound(global, env, below, s, i, out, value.value);
        out := out + s[..i];
        top := top + 1;
        Put(stack, top, value.value);
        assert below + [tail] + [value.value] == below + [tail, value.value];
      }
    }
    assert stack[..top + 1] == [];
    r := Outcome(out, None);
  }

  // ---------- two texts, one after the other ----------

  /** The text ends outside a name and not with a dollar sign, so that nothing of it runs into what follows. */
  predicate Complete(a: Bytes)
    decreases |a|
  {
    var i := Next(a, 0);
    if i == |a| then a == [] || a[|a| - 1] != DOLLAR
    else if a[i + 1] == DOLLAR then Complete(a[i + 2..])
    else NameEnd(a, i + 2) < |a| && Complete(RefTail(a, i))
  }

  lemma SliceMoves(a: Bytes, s: Bytes, n: nat)
    requires n <= |s|
    ensures (a + s)[..|a| + n] == a + s[..n] && (a + s)[|a| + n..] == s[n..]
  {
  }

  lemma {:induction false} NextShift(a: Bytes, s: Bytes, i: nat)
    requires i <= |s|
    ensures Next(a + s, |a| + i) == |a| + Next(s, i)
    decreases |s| - i
  {
    if i < |s| {
      assert Special(a + s, |a| + i) <==> Special(s, i);
      if !Special(s, i) {
        NextShift(a, s, i + 1);
      }
    }
  }

  lemma {:induction false} NextSkips(s: Bytes, i: nat, n: nat)
    requires i <= n <= |s| && forall j :: i <= j < n ==> !Special(s, j)
    ensures Next(s, i) == Next(s, n)
    decreases n - i
  {
    if i < n {
      NextSkips(s, i + 1, n);
    }
  }

  lemma {:induction false} NextStays(a: Bytes, s: Bytes, i: nat)
    requires i <= |a| && Next(a, i) < |a|
    ensures Next(a + s, i) == Next(a, i)
    decreases |a| - i
  {
    assert Special(a, Next(a, i));
    if i + 1 < |a| {
      assert Special(a + s, i) <==> Special(a, i);
      if !Special(a, i) {
        NextStays(a, s, i + 1);
      }
    }
  }

  lemma {:induction false} NameEndShift(a: Bytes, s: Bytes, i: nat)
    requires i <= |s|
    ensures NameEnd(a + s, |a| + i) == |a| + NameEnd(s, i)
    decreases |s| - i
  {
    if i < |s| && s[i] != CLOSE {
      NameEndShift(a, s, i + 1);
    }
  }

  lemma {:induction false} NameEndStays(a: Bytes, s: Bytes, i: nat)
    requires i <= |a| && NameEnd(a, i) < |a|
    ensures NameEnd(a + s, i) == NameEnd(a, i)
    decreases |a| - i
  {
    if a[i] != CLOSE {
      NameEndStays(a, s, i + 1);
    }
  }

  /** The first reference or escape of the first text is that of both. */
  lemma SpecialStays(a: Bytes, s: Bytes)
    requires Next(a, 0) < |a|
    ensures var i := Next(a, 0);
      && Next(a + s, 0) == i && i + 1 < |a| && (a[i + 1] == OPEN || a[i + 1] == DOLLAR) && Special(a + s, i) && (a + s)[i + 1] == a[i + 1]
      && (a + s)[..i] == a[..i] && (a + s)[..i + 1] == a[..i + 1] && (a + s)[i + 2..] == a[i + 2..] + s
  {
    NextStays(a, s, 0);
    hide Next;
  }

  lemma ReferenceStays(a: Bytes, s: Bytes, i: nat)
    requires Special(a, i) && Special(a + s, i) && NameEnd(a, i + 2) < |a|
    ensures RefName(a + s, i) == RefName(a, i) && RefTail(a + s, i) == RefTail(a, i) + s
  {
    hide NameEnd;
    NameEndStays(a, s, i + 2);
  }

  /** Behind a text that has none, the first reference or escape is that of the second text. */
  lemma SpecialMoves(a: Bytes, s: Bytes)
    requires Next(a, 0) == |a| && (a == [] || a[|a| - 1] != DOLLAR)
    ensures var n := Next(s, 0);
      && Next(a + s, 0) == |a| + n && (a + s)[..|a| + n] == a + s[..n]
      && (n < |s| ==>
            && n + 2 <= |s| && (s[n + 1] == OPEN || s[n + 1] == DOLLAR) && Special(a + s, |a| + n) && (a + s)[|a| + n + 1] == s[n + 1]
            && (a + s)[..|a| + n + 1] == a + s[..n + 1] && (a + s)[|a| + n + 2..] == s[n + 2..])
  {
    hide Next, Special;
    NextMoves(a, s);
    var n := Next(s, 0);
    SliceMoves(a, s, n);
    if n < |s| {
      SpecialShift(a, s, n);
      SliceMoves(a, s, n + 1);
      SliceMoves(a, s, n + 2);
    }
  }

  lemma SpecialShift(a: Bytes, s: Bytes, n: nat)
    requires Special(s, n)
    ensures n + 2 <= |s| && (s[n + 1] == OPEN || s[n + 1] == DOLLAR)
    ensures Special(a + s, |a| + n) && (a + s)[|a| + n + 1] == s[n + 1]
  {
  }

  lemma NextMoves(a: Bytes, s: Bytes)
    requires Next(a, 0) == |a| && (a == [] || a[|a| - 1] != DOLLAR)
    ensures Next(a + s, 0) == |a| + Next(s, 0)
  {
    forall j | 0 <= j < |a| ensures !Special(a + s, j) {
      assert !Special(a, j);
    }
    hide Next;
    NextSkips(a + s, 0, |a|);
    NextShift(a, s, 0);
  }

  lemma ReferenceMoves(a: Bytes, s: Bytes, n: nat)
    requires Special(s, n) && Special(a + s, |a| + n)
    ensures RefName(a + s, |a| + n) == RefName(s, n)
    ensures RefTail(a + s, |a| + n) == RefTail(s, n)
  {
    hide NameEnd;
    NameEndShift(a, s, n + 2);
    assert |a| + n + 2 == |a| + (n + 2);
  }

  lemma ThenAssociates(x: Outcome, y: Outcome, z: Outcome)
    ensures x.Then(y).Then(z) == x.Then(y.Then(z))
  {
    assert x.out + y.out + z.out == x.out + (y.out + z.out);
  }

  lemma ThenPrefix(a: Bytes, b: Bytes, r: Outcome)
    ensures Outcome(a + b, None).Then(r) == Outcome(a, None).Then(Outcome(b, None).Then(r))
  {
    assert a + b + r.out == a + (b + r.out);
  }

  /** Printing a text before another is the same as expanding them as one, unless a reference is too deep, which is
      found before the text in front of it is printed. */
  ghost predicate Joins(global: Vars, env: Vars, level: nat, a: Bytes, b: Bytes) {
    (level < SLOTS - 1 || Expansion(global, env, level, a + b).error == None) ==>
      Expansion(global, env, level, a + b)
      == Expansion(global, env, level, a).Then(Expansion(global, env, level, b))
  }

  lemma PlainJoins(global: Vars, env: Vars, level: nat, a: Bytes, b: Bytes)
    requires Next(a, 0) == |a| && (a == [] || a[|a| - 1] != DOLLAR)
    ensures Joins(global, env, level, a, b)
  {
    hide Next, Expansion, RefName, RefTail, Lookup, Special, Joins;
    var n := Next(b, 0);
    SpecialMoves(a, b);
    if n == |b| {
      PlainTextJoins(global, env, level, a, b);
    } else if b[n + 1] == DOLLAR {
      PlainEscapeJoins(global, env, level, a, b, n);
    } else {
      PlainReferenceJoins(global, env, level, a, b, n);
    }
  }

  lemma PlainTextJoins(global: Vars, env: Vars, level: nat, a: Bytes, b: Bytes)
    requires Next(a, 0) == |a| && Next(b, 0) == |b| && Next(a + b, 0) == |a| + |b|
    ensures Joins(global, env, level, a, b)
  {
    hide Next, Expansion;
    PlainExpansion(global, env, level, a);
    PlainExpansion(global, env, level, b);
    PlainExpansion(global, env, level, a + b);
  }

  lemma HeadJoins(global: Vars, env: Vars, level: nat, a: Bytes, b: Bytes, head: Bytes, r: Outcome)
    requires Expansion(global, env, level, a) == Outcome(a, None)
    requires Expansion(global, env, level, b) == Outcome(head, None).Then(r)
    requires Expansion(global, env, level, a + b) == Outcome(a + head, None).Then(r)
    ensures Joins(global, env, level, a, b)
  {
    hide Expansion;
    ThenPrefix(a, head, r);
  }

  lemma EscapeBehind(global: Vars, env: Vars, level: nat, a: Bytes, b: Bytes, n: nat)
    requires Next(a, 0) == |a| && (a == [] || a[|a| - 1] != DOLLAR)
    requires n + 1 < |b| && Special(b, n) && n == Next(b, 0) && b[n + 1] == DOLLAR
    ensures Expansion(global, env, level, a + b)
         == Outcome(a + b[..n + 1], None).Then(Expansion(global, env, level, b[n + 2..]))
  {
    hide Next, Expansion, Special, Outcome.Then;
    SpecialMoves(a, b);
    EscapeExpansion(global, env, level, a + b, |a| + n);
  }

  lemma PlainEscapeJoins(global: Vars, env: Vars, level: nat, a: Bytes, b: Bytes, n: nat)
    requires Next(a, 0) == |a| && (a == [] || a[|a| - 1] != DOLLAR)
    requires n + 1 < |b| && Special(b, n) && n == Next(b, 0) && b[n + 1] == DOLLAR
    ensures Joins(global, env, level, a, b)
  {
    hide Next, Expansion, Special, Joins, Outcome.Then;
    PlainExpansion(global, env, level, a);
    EscapeExpansion(global, env, level, b, n);
    EscapeBehind(global, env, level, a, b, n);
    HeadJoins(global, env, level, a, b, b[..n + 1], Expansion(global, env, level, b[n + 2..]));
  }

  lemma PlainReferenceJoins(global: Vars, env: Vars, level: nat, a: Bytes, b: Bytes, n: nat)
    requires Next(a, 0) == |a| && (a == [] || a[|a| - 1] != DOLLAR)
    requires n + 1 < |b| && Special(b, n) && n == Next(b, 0) && b[n + 1] == OPEN
    ensures Joins(global, env, level, a, b)
  {
    hide Next, Expansion, RefName, RefTail, Lookup, Special;
    SpecialMoves(a, b);
    ReferenceMoves(a, b, n);
    PlainExpansion(global, env, level, a);
    FailingExpansion(global, env, level, b, n);
    FailingExpansion(global, env, level, a + b, |a| + n);
    if level < SLOTS - 1 {
      var value := Lookup(global, env, RefName(b, n));
      if value.Some? {
        ReferenceExpansion(global, env, level, b, n, value.value);
        ReferenceExpansion(global, env, level, a + b, |a| + n, value.value);
        var v, t := Expansion(global, env, level + 1, value.value), Expansion(global, env, level, RefTail(b, n));
        ThenPrefix(a, b[..n], v);
        ThenAssociates(Outcome(a, None), Outcome(b[..n], None).Then(v), t);
      }
    }
  }

  /** A complete text expands on its own, whatever follows it. */
  lemma {:induction false} ExpansionJoins(global: Vars, env: Vars, level: nat, a: Bytes, b: Bytes)
    requires Complete(a)
    ensures Joins(global, env, level, a, b)
    decreases |a|
  {
    hide Next, NameEnd, Expansion, RefName, RefTail, Lookup, Special;
    var i := Next(a, 0);
    if i == |a| {
      PlainJoins(global, env, level, a, b);
    } else {
      SpecialStays(a, b);
      if a[i + 1] == DOLLAR {
        ExpansionJoins(global, env, level, a[i + 2..], b);
        EscapeExpansion(global, env, level, a, i);
        EscapeExpansion(global, env, level, a + b, i);
        ThenAssociates(Outcome(a[..i + 1], None), Expansion(global, env, level, a[i + 2..]), Expansion(global, env, level, b));
      } else {
        ExpansionJoins(global, env, level, RefTail(a, i), b);
        ReferenceJoins(global, env, level, a, b, i);
      }
    }
  }

  lemma ReferenceJoins(global: Vars, env: Vars, level: nat, a: Bytes, b: Bytes, i: nat)
    requires Special(a, i) && i == Next(a, 0) && a[i + 1] == OPEN && NameEnd(a, i + 2) < |a|
    requires Joins(global, env, level, RefTail(a, i), b)
    ensures Joins(global, env, level, a, b)
  {
    hide Next, NameEnd, Expansion, RefName, RefTail, Lookup, Special;
    SpecialStays(a, b);
    ReferenceStays(a, b, i);
    FailingExpansion(global, env, level, a, i);
    FailingExpansion(global, env, level, a + b, i);
    if level < SLOTS - 1 {
      var value := Lookup(global, env, RefName(a, i));
      if value.Some? {
        ReferenceExpansion(global, env, level, a, i, value.value);
        ReferenceExpansion(global, env, level, a + b, i, value.value);
        var v := Outcome(a[..i], None).Then(Expansion(global, env, level + 1, value.value));
        ThenAssociates(v, Expansion(global, env, level, RefTail(a, i)), Expansion(global, env, level, b));
      }
    }
  }

  // ---------- escaping ----------

  function Doubled(s: Bytes): Bytes {
    if s == [] then [] else (if s[0] == DOLLAR then [DOLLAR, DOLLAR] else [s[0]]) + Doubled(s[1..])
  }

  /** Text without a dollar sign expands to itself. */
  lemma PlainExpands(global: Vars, env: Vars, level: nat, s: Bytes)
    requires DOLLAR !in s
    ensures Next(s, 0) == |s| && Expansion(global, env, level, s) == Outcome(s, None)
  {
    NextSkips(s, 0, |s|);
    hide Expansion;
    PlainExpansion(global, env, level, s);
  }

  /** A dollar-free prefix is printed as it is. */
  lemma PrefixExpands(global: Vars, env: Vars, level: nat, a: Bytes, s: Bytes)
    requires DOLLAR !in a && Expansion(global, env, level, s).error == None
    ensures Expansion(global, env, level, a + s) == Outcome(a + Expansion(global, env, level, s).out, None)
  {
    hide Next, Expansion;
    PlainExpands(global, env, level, a);
    PlainSucceeds(global, env, level, a, s);
    PlainJoins(global, env, level, a, s);
  }

  /** Text in front that refers to nothing is no reason to fail. */
  lemma PlainSucceeds(global: Vars, env: Vars, level: nat, a: Bytes, s: Bytes)
    requires Next(a, 0) == |a| && (a == [] || a[|a| - 1] != DOLLAR)
    requires Expansion(global, env, level, s).error == None
    ensures level >= SLOTS - 1 ==> Expansion(global, env, level, a + s).error == None
  {
    hide Next, Expansion, RefName, RefTail, Lookup, Special;
    var n := Next(s, 0);
    SpecialMoves(a, s);
    if n == |s| {
      PlainExpansion(global, env, level, a + s);
    } else if s[n + 1] == DOLLAR {
      EscapeExpansion(global, env, level, s, n);
      EscapeExpansion(global, env, level, a + s, |a| + n);
    } else {
      FailingExpansion(global, env, level, s, n);
    }
  }

  /** Text in which no dollar sign is before a brace or another dollar sign expands to itself. */
  lemma TextExpands(global: Vars, env: Vars, level: nat, s: Bytes)
    requires forall i :: 0 <= i < |s| - 1 && s[i] == DOLLAR ==> s[i + 1] != OPEN && s[i + 1] != DOLLAR
    ensures Expansion(global, env, level, s) == Outcome(s, None)
  {
    NextSkips(s, 0, |s|);
    hide Expansion;
    PlainExpansion(global, env, level, s);
  }

  // ---------- what a reference stands for ----------

  function Reference(name: Bytes): Bytes {
    [DOLLAR, OPEN] + name + [CLOSE]
  }

  lemma {:induction false} NameEndFound(s: Bytes, i: nat, n: nat)
    requires i <= n <= |s| && (n < |s| ==> s[n] == CLOSE) && forall j :: i <= j < n ==> s[j] != CLOSE
    ensures NameEnd(s, i) == n
    decreases n - i
  {
    if i < n {
      NameEndFound(s, i + 1, n);
    }
  }

  lemma ReferenceStarts(name: Bytes, post: Bytes)
    requires CLOSE !in name
    ensures var s := Reference(name) + post;
      && Special(s, 0) && Next(s, 0) == 0 && s[1] == OPEN && RefName(s, 0) == name && RefTail(s, 0) == post
  {
    var s := Reference(name) + post;
    assert forall j :: 2 <= j < |name| + 2 ==> s[j] == name[j - 2];
    NameEndFound(s, 2, |name| + 2);
  }

  /** A reference at the front is replaced by the expansion of its value. */
  lemma ReferenceExpands(global: Vars, env: Vars, level: nat, name: Bytes, value: Bytes, post: Bytes)
    requires CLOSE !in name && level < SLOTS - 1 && Lookup(global, env, name) == Some(value)
    ensures Expansion(global, env, level, Reference(name) + post)
      == Expansion(global, env, level + 1, value).Then(Expansion(global, env, level, post))
  {
    hide Expansion, Lookup, Reference;
    ReferenceStarts(name, post);
    ReferenceExpansion(global, env, level, Reference(name) + post, 0, value);
    var inner := Expansion(global, env, level + 1, value);
    assert [] + inner.out == inner.out;
  }

  /** What a name stands for: the first environment's value, else the second's, else nothing. */
  lemma ReferenceMeans(global: Vars, env: Vars, level: nat, name: Bytes, post: Bytes)
    requires CLOSE !in name && level < SLOTS - 1
    ensures name in global ==>
      Expansion(global, env, level, Reference(name) + post)
      == Expansion(global, env, level + 1, global[name]).Then(Expansion(global, env, level, post))
    ensures name !in global && name in env ==>
      Expansion(global, env, level, Reference(name) + post)
      == Expansion(global, env, level + 1, env[name]).Then(Expansion(global, env, level, post))
    ensures name !in global && name !in env ==>
      Expansion(global, env, level, Reference(name) + post) == Outcome([], Some(Undefined(name)))
  {
    hide Expansion, Reference;
    if name in global {
      ReferenceExpands(global, env, level, name, global[name], post);
    } else if name in env {
      ReferenceExpands(global, env, level, name, env[name], post);
    } else {
      ReferenceStarts(name, post);
      FailingExpansion(global, env, level, Reference(name) + post, 0);
    }
  }

  /** Without a closing brace the rest of the text is the name. */
  lemma OpenReferenceExpands(global: Vars, env: Vars, level: nat, name: Bytes, value: Bytes)
    requires CLOSE !in name && level < SLOTS - 1 && Lookup(global, env, name) == Some(value)
    ensures Expansion(global, env, level, [DOLLAR, OPEN] + name) == Expansion(global, env, level + 1, value)
  {
    hide Expansion, Lookup;
    var s := [DOLLAR, OPEN] + name;
    assert forall j :: 2 <= j < |s| ==> s[j] == name[j - 2];
    NameEndFound(s, 2, |s|);
    assert Special(s, 0) && RefName(s, 0) == name && RefTail(s, 0) == [];
    ReferenceExpansion(global, env, level, s, 0, value);
    TextExpands(global, env, level, []);
    var inner := Expansion(global, env, level + 1, value);
    assert [] + inner.out == inner.out && inner.out + [] == inner.out;
  }

  /** What the second environment binds to a name of the first changes nothing. */
  lemma {:induction false} ShadowedIgnored(global: Vars, env: Vars, name: Bytes, other: Bytes, level: nat, s: Bytes)
    requires name in global
    ensures Expansion(global, env[name := other], level, s) == Expansion(global, env, level, s)
    decreases SLOTS - level, |s|
  {
    hide Next, Expansion, RefName, RefTail;
    var bound := env[name := other];
    var i := Next(s, 0);
    if i == |s| {
      PlainExpansion(global, env, level, s);
      PlainExpansion(global, bound, level, s);
    } else if s[i + 1] == DOLLAR {
      ShadowedIgnored(global, env, name, other, level, s[i + 2..]);
      EscapeExpansion(global, env, level, s, i);
      EscapeExpansion(global, bound, level, s, i);
    } else {
      FailingExpansion(global, env, level, s, i);
      FailingExpansion(global, bound, level, s, i);
      var value := Lookup(global, env, RefName(s, i));
      if level < SLOTS - 1 && value.Some? {
        ShadowedIgnored(global, env, name, other, level + 1, value.value);
        ShadowedIgnored(global, env, name, other, level, RefTail(s, i));
        ReferenceExpansion(global, env, level, s, i, value.value);
        ReferenceExpansion(global, bound, level, s, i, value.value);
      }
    }
  }

  // ---------- doubled dollar signs ----------

  lemma PairExpands(global: Vars, env: Vars, level: nat, s: Bytes)
    ensures Expansion(global, env, level, [DOLLAR, DOLLAR] + s)
         == Outcome([DOLLAR], None).Then(Expansion(global, env, level, s))
  {
    hide Expansion;
    var d := [DOLLAR, DOLLAR] + s;
    assert Special(d, 0) && Next(d, 0) == 0;
    assert d[2..] == s && d[..1] == [DOLLAR];
    EscapeExpansion(global, env, level, d, 0);
  }

  /** Doubling every dollar sign is undone by expansion. */
  lemma {:induction false} DoubledExpands(global: Vars, env: Vars, level: nat, s: Bytes)
    ensures Expansion(global, env, level, Doubled(s)) == Outcome(s, None)
  {
    if s == [] {
      PlainExpands(global, env, level, s);
    } else {
      hide Expansion;
      DoubledExpands(global, env, level, s[1..]);
      assert s == [s[0]] + s[1..];
      if s[0] == DOLLAR {
        PairExpands(global, env, level, Doubled(s[1..]));
      } else {
        PrefixExpands(global, env, level, [s[0]], Doubled(s[1..]));
      }
    }
  }

  // ---------- chains of references ----------

  /** The names a string refers to, not looking into their values. */
  function References(s: Bytes): set<Bytes>
    decreases |s|
  {
    var i := Next(s, 0);
    if i == |s| then {}
    else if s[i + 1] == DOLLAR then References(s[i + 2..])
    else {RefName(s, i)} + References(RefTail(s, i))
  }

  /** Each name is referred to by the value of the one before, and the first by `s`. */
  ghost predicate Chain(global: Vars, env: Vars, s: Bytes, names: seq<Bytes>)
    decreases |names|
  {
    names != [] ==>
      && names[0] in References(s)
      && (|names| > 1 ==>
            && Lookup(global, env, names[0]).Some?
            && Chain(global, env, Lookup(global, env, names[0]).value, names[1..]))
  }

  /** An expansion that succeeds leaves no chain too long and no chain ending in an unbound name. */
  lemma {:induction false} SuccessBoundsChains(global: Vars, env: Vars, level: nat, s: Bytes, names: seq<Bytes>)
    requires Expansion(global, env, level, s).error == None && names != [] && Chain(global, env, s, names)
    ensures level + |names| <= SLOTS - 1 && Lookup(global, env, names[|names| - 1]).Some?
    decreases SLOTS - level, |s|
  {
    hide Next, NameEnd, Expansion, RefName, RefTail, Lookup;
    var i := Next(s, 0);
    SucceedsInside(global, env, level, s, i);
    if s[i + 1] == DOLLAR {
      SuccessBoundsChains(global, env, level, s[i + 2..], names);
    } else if names[0] != RefName(s, i) {
      SuccessBoundsChains(global, env, level, RefTail(s, i), names);
    } else if |names| > 1 {
      SuccessBoundsChains(global, env, level + 1, Lookup(global, env, names[0]).value, names[1..]);
    }
  }

  /** If a text expands without failure, so does what its first escape or reference leads to. */
  lemma SucceedsInside(global: Vars, env: Vars, level: nat, s: Bytes, i: nat)
    requires Expansion(global, env, level, s).error == None && i == Next(s, 0)
    ensures i < |s| && s[i + 1] == DOLLAR ==> Expansion(global, env, level, s[i + 2..]).error == None
    ensures i < |s| && s[i + 1] != DOLLAR ==>
      && level < SLOTS - 1 && Lookup(global, env, RefName(s, i)).Some?
      && Expansion(global, env, level + 1, Lookup(global, env, RefName(s, i)).value).error == None
      && Expansion(global, env, level, RefTail(s, i)).error == None
  {
    hide Next, Expansion, RefName, RefTail, Lookup;
    if i < |s| {
      if s[i + 1] == DOLLAR {
        EscapeExpansion(global, env, level, s, i);
      } else {
        FailingExpansion(global, env, level, s, i);
        ReferenceExpansion(global, env, level, s, i, Lookup(global, env, RefName(s, i)).value);
      }
    }
  }

  lemma ChainFromRest(global: Vars, env: Vars, s: Bytes, i: nat, names: seq<Bytes>)
    requires Special(s, i) && i == Next(s, 0)
    requires Chain(global, env, if s[i + 1] == DOLLAR then s[i + 2..] else RefTail(s, i), names)
    ensures Chain(global, env, s, names)
  {
    hide Next, NameEnd;
  }

  lemma ChainFromName(global: Vars, env: Vars, s: Bytes, i: nat, deeper: seq<Bytes>)
    requires Special(s, i) && i == Next(s, 0) && s[i + 1] == OPEN
    requires deeper != [] ==>
      var value := Lookup(global, env, RefName(s, i)); value.Some? && Chain(global, env, value.value, deeper)
    ensures Chain(global, env, s, [RefName(s, i)] + deeper)
  {
    hide Next, NameEnd;
    var names := [RefName(s, i)] + deeper;
    assert names[1..] == deeper;
  }

  /** A chain that explains the failure of an expansion. */
  lemma {:induction false} FailureHasChain(global: Vars, env: Vars, level: nat, s: Bytes) returns (names: seq<Bytes>)
    requires level <= SLOTS - 1 && Expansion(global, env, level, s).error.Some?
    ensures names != [] && Chain(global, env, s, names)
    ensures match Expansion(global, env, level, s).error.value
      case TooDeep => level + |names| == SLOTS
      case Undefined(n) => names[|names| - 1] == n && Lookup(global, env, n) == None
    decreases SLOTS - level, |s|
  {
    hide Next, NameEnd;
    hide Expansion, References, RefName, RefTail, Lookup;
    var i := Next(s, 0);
    if i == |s| {
      PlainExpansion(global, env, level, s);
    } else if s[i + 1] == DOLLAR {
      EscapeExpansion(global, env, level, s, i);
      names := FailureHasChain(global, env, level, s[i + 2..]);
      ChainFromRest(global, env, s, i, names);
    } else {
      var name := RefName(s, i);
      var value := Lookup(global, env, name);
      FailingExpansion(global, env, level, s, i);
      if level >= SLOTS - 1 || value == None {
        names := [name];
        ChainFromName(global, env, s, i, []);
      } else {
        ReferenceExpansion(global, env, level, s, i, value.value);
        if Expansion(global, env, level + 1, value.value).error.Some? {
          var deeper := FailureHasChain(global, env, level + 1, value.value);
          names := [name] + deeper;
          ChainFromName(global, env, s, i, deeper);
        } else {
          names := FailureHasChain(global, env, level, RefTail(s, i));
          ChainFromRest(global, env, s, i, names);
        }
      }
    }
  }

  /** An expansion succeeds exactly when all chains are short enough and end in bound names. */
  lemma SucceedsIff(global: Vars, env: Vars, s: Bytes)
    ensures Expansion(global, env, 0, s).error == None
      <==> forall names :: names != [] && Chain(global, env, s, names) ==>
        |names| <= SLOTS - 1 && Lookup(global, env, names[|names| - 1]).Some?
  {
    if Expansion(global, env, 0, s).error == None {
      forall names | names != [] && Chain(global, env, s, names)
        ensures |names| <= SLOTS - 1 && Lookup(global, env, names[|names| - 1]).Some?
      {
        SuccessBoundsChains(global, env, 0, s, names);
      }
    } else {
      var names := FailureHasChain(global, env, 0, s);
    }
  }

  lemma {:induction false} ChainsJoin(global: Vars, env: Vars, s: Bytes, a: seq<Bytes>, b: seq<Bytes>)
    requires a != [] && Chain(global, env, s, a) && Lookup(global, env, a[|a| - 1]).Some?
    requires Chain(global, env, Lookup(global, env, a[|a| - 1]).value, b)
    ensures Chain(global, env, s, a + b)
    decreases |a|
  {
    if |a| == 1 {
      assert (a + b)[1..] == b;
    } else {
      ChainsJoin(global, env, Lookup(global, env, a[0]).value, a[1..], b);
      assert (a + b)[1..] == a[1..] + b;
    }
  }

  /** From a variable whose value leads back to it, chains of any length start. */
  lemma {:induction false} CycleGoesOn(global: Vars, env: Vars, v: Bytes, cycle: seq<Bytes>, n: nat)
    returns (names: seq<Bytes>)
    requires Lookup(global, env, v).Some? && cycle != [] && cycle[|cycle| - 1] == v
    requires Chain(global, env, Lookup(global, env, v).value, cycle)
    ensures |names| >= n && Chain(global, env, Lookup(global, env, v).value, names)
  {
    if n == 0 {
      names := [];
    } else {
      var more := CycleGoesOn(global, env, v, cycle, n - 1);
      names := cycle + more;
      ChainsJoin(global, env, Lookup(global, env, v).value, cycle, more);
    }
  }

  /** An expansion that reaches a cycle of variables fails. */
  lemma CycleFails(global: Vars, env: Vars, s: Bytes, to: seq<Bytes>, cycle: seq<Bytes>)
    requires to != [] && Chain(global, env, s, to)
    requires var v := to[|to| - 1];
      && Lookup(global, env, v).Some? && cycle != [] && cycle[|cycle| - 1] == v
      && Chain(global, env, Lookup(global, env, v).value, cycle)
    ensures Expansion(global, env, 0, s).error.Some?
  {
    var more := CycleGoesOn(global, env, to[|to| - 1], cycle, SLOTS);
    ChainsJoin(global, env, s, to, more);
    if Expansion(global, env, 0, s).error == None {
      SuccessBoundsChains(global, env, 0, s, to + more);
    }
  }
}
