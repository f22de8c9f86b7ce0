/** Splitting a Windows command line into WTF-8 arguments. */
module CommandLine {

  type Units = seq<bv16>
  type Text = seq<bv8>

  const TAB: bv32 := 0x09
  const SPACE: bv32 := 0x20
  const QUOTE: bv32 := 0x22
  const SLASH: bv32 := 0x5c
  const QUOTE16: bv16 := 0x22
  const SLASH16: bv16 := 0x5c
  const SPACE16: bv16 := 0x20
  const SLASH8: bv8 := 0x5c

  // ---------- characters ----------

  predicate High(u: bv16) { u >> 10 == 0x36 }

  predicate Low(u: bv16) { u >> 10 == 0x37 }

  predicate Pair(s: Units) { |s| >= 2 && High(s[0]) && Low(s[1]) }

  /** How many units the next character takes. */
  function Width(s: Units): (n: nat)
    requires s != []
    ensures 1 <= n <= |s|
  {
    if Pair(s) then 2 else 1
  }

  function Combine(hi: bv16, lo: bv16): (c: bv32)
    requires High(hi) && Low(lo)
    ensures 0x10000 <= c < 0x110000
  {
    0x10000 + (((hi as bv32) - 0xd800) << 10) + ((lo as bv32) - 0xdc00)
  }

  /** The next character; an unpaired surrogate stands for itself. */
  function Decode(s: Units): (c: bv32)
    requires s != []
    ensures c >= 0x10000 <==> Width(s) == 2
    ensures s[0] != 0 ==> c != 0
    ensures Width(s) == 1 ==> c == s[0] as bv32
  {
    if Pair(s) then Combine(s[0], s[1]) else s[0] as bv32
  }

  function Byte(x: bv32): bv8 { (x & 0xff) as bv8 }

  function Encode(c: bv32): (r: Text)
    ensures 1 <= |r| <= 4
    ensures |r| == 4 <==> c >= 0x10000
    ensures c != 0 && c < 0x110000 ==> 0 !in r
    ensures c < 0x80 ==> r == [Byte(c)]
  {
    if c < 0x80 then [Byte(c)]
    else if c < 0x800 then [Byte(0xc0 | (c >> 6)), Byte(0x80 | (c & 63))]
    else if c < 0x10000 then [Byte(0xe0 | (c >> 12)), Byte(0x80 | ((c >> 6) & 63)), Byte(0x80 | (c & 63))]
    else [Byte(0xf0 | (c >> 18)), Byte(0x80 | ((c >> 12) & 63)), Byte(0x80 | ((c >> 6) & 63)), Byte(0x80 | (c & 63))]
  }

  /** The WTF-8 form of a string of 16-bit units. */
  function Wtf8(s: Units): Text {
    if s == [] then [] else Encode(Decode(s)) + Wtf8(s[Width(s)..])
  }

  // ---------- the automaton, one character at a time ----------

  /** `args` are the arguments begun so far; in state 0 the last of them is closed. */
  datatype State = State(state: nat, slash: nat, args: seq<Text>) {
    function Emit(c: bv32): State
      requires args != []
    {
      this.(args := args[|args| - 1 := args[|args| - 1] + Encode(c)])
    }

    function Retract(n: nat): State
      requires args != [] && n <= |args[|args| - 1]|
    {
      var last := args[|args| - 1];
      this.(args := args[|args| - 1 := last[..|last| - n]])
    }

    function Open(): State { this.(args := args + [[]]) }

    function Go(state: nat): State { this.(state := state, slash := 0) }

    predicate Valid() {
      && state <= 8 && args != []
      && (state == 3 || state == 4 ==> 1 <= slash <= |args[|args| - 1]|)
      && (state != 3 && state != 4 ==> slash == 0)
    }
  }

  const START := State(6, 0, [[]])

  predicate Blank(c: bv32) { c == TAB || c == SPACE }

  /** One character; where the automaton pushes the character back it is fed again to the next state. */
  function Feed(st: State, c: bv32): (r: State)
    requires st.Valid()
    ensures r.Valid()
    decreases if 3 <= st.state <= 5 then 1 else 0
  {
    match st.state
    case 0 =>
      if Blank(c) then st
      else if c == QUOTE then st.Open().Go(2)
      else if c == SLASH then st.Open().Emit(c).(state := 3, slash := 1)
      else st.Open().Emit(c).Go(1)
    case 1 =>
      if Blank(c) then st.Go(0)
      else if c == QUOTE then st.Go(2)
      else if c == SLASH then st.Emit(c).(state := 3, slash := 1)
      else st.Emit(c)
    case 2 =>
      if c == QUOTE then st.Go(5)
      else if c == SLASH then st.Emit(c).(state := 4, slash := 1)
      else st.Emit(c)
    case 3 => FeedSlashed(st, c)
    case 4 => FeedSlashed(st, c)
    case 5 => if c == QUOTE then st.Emit(c).Go(1) else Feed(st.Go(1), c)
    case 6 => if Blank(c) then st.Go(0) else if c == QUOTE then st.Go(8) else st.Emit(c).Go(7)
    case 7 => if Blank(c) then st.Go(0) else st.Emit(c)
    case _ => if c == QUOTE then st.Go(0) else st.Emit(c)
  }

  /** After `slash` backslashes: half of them are taken back before a quote. */
  function FeedSlashed(st: State, c: bv32): (r: State)
    requires st.Valid() && (st.state == 3 || st.state == 4)
    ensures r.Valid()
    decreases 1, 0
  {
    if c == SLASH then st.Emit(c).(slash := st.slash + 1)
    else if c == QUOTE then
      var half := st.Retract((1 + st.slash) / 2).Go(st.state - 2);
      if st.slash % 2 == 1 then half.Emit(c) else Feed(half, c)
    else Feed(st.Go(st.state - 2), c)
  }

  /** The automaton leaves states 3 to 5 without taking the character. */
  predicate Pushes(st: State, c: bv32) {
    || (st.state == 5 && c != QUOTE)
    || ((st.state == 3 || st.state == 4) && c != SLASH && (c == QUOTE ==> st.slash % 2 == 0))
  }

  function Pushed(st: State, c: bv32): State
    requires st.Valid() && Pushes(st, c)
  {
    if st.state == 5 then st.Go(1)
    else if c == QUOTE then st.Retract((1 + st.slash) / 2).Go(st.state - 2)
    else st.Go(st.state - 2)
  }

  function Run(st: State, cmd: Units): (r: State)
    requires st.Valid()
    ensures r.Valid()
    decreases |cmd|
  {
    if cmd == [] then st else Run(Feed(st, Decode(cmd)), cmd[Width(cmd)..])
  }

  function Split(cmd: Units): (args: seq<Text>)
    ensures args != []
  {
    Run(START, cmd).args
  }

  // ---------- steps of the automaton ----------

  function Slashes(n: nat): Units { seq(n, _ => SLASH16) }

  function Slash8s(n: nat): Text { seq(n, _ => SLASH8) }

  lemma RunOne(st: State, u: bv16, rest: Units)
    requires st.Valid() && !Pair([u] + rest)
    ensures Run(st, [u] + rest) == Run(Feed(st, u as bv32), rest)
  {
    var cmd := [u] + rest;
    assert cmd[1..] == rest;
  }

  lemma RunStep(st: State, cmd: Units)
    requires st.Valid() && cmd != []
    ensures Run(st, cmd) == Run(Feed(st, Decode(cmd)), cmd[Width(cmd)..])
  {
    hide Feed, FeedSlashed, Decode, Width;
  }

  lemma RunEmpty(st: State)
    requires st.Valid()
    ensures Run(st, []) == st
  {
  }

  lemma EmitLast(done: seq<Text>, last: Text, c: bv32, state: nat, slash: nat)
    ensures State(state, slash, done + [last]).Emit(c) == State(state, slash, done + [last + Encode(c)])
  {
    assert (done + [last])[|done| := last + Encode(c)] == done + [last + Encode(c)];
  }

  lemma RetractLast(done: seq<Text>, last: Text, k: nat, state: nat, slash: nat)
    ensures State(state, slash, done + [last + Slash8s(k)]).Retract(k) == State(state, slash, done + [last])
  {
    assert (last + Slash8s(k))[..|last + Slash8s(k)| - k] == last;
    assert (done + [last + Slash8s(k)])[|done| := last] == done + [last];
  }

  lemma EncodeSlash()
    ensures Encode(SLASH) == [SLASH8]
  {
  }

  lemma DecodeSame(s: Units, t: Units)
    requires s != [] && t != [] && s[0] == t[0] && (Pair(s) <==> Pair(t)) && (Pair(s) ==> s[1] == t[1])
    ensures Width(s) == Width(t) && Decode(s) == Decode(t)
  {
    hide High, Low, Combine;
  }

  // ---------- bounds ----------

  /** The bytes behind the arguments: each is closed by a NUL. */
  function Joined(args: seq<Text>): Text {
    if args == [] then [] else Joined(args[..|args| - 1]) + args[|args| - 1] + [0]
  }

  function Memory(args: seq<Text>, closed: bool): Text
    requires args != []
  {
    if closed then Joined(args) else Joined(args[..|args| - 1]) + args[|args| - 1]
  }

  function Start(args: seq<Text>, j: nat): nat
    requires j <= |args|
  {
    |Joined(args[..j])|
  }

  /** The last `slash` bytes printed are backslashes. */
  predicate EndsInSlashes(last: Text, n: nat) {
    n <= |last| && forall j :: |last| - n <= j < |last| ==> last[j] == SLASH8
  }

  /** When every argument so far took just two units, the first is empty and the second is not. */
  predicate TightShape(st: State) {
    && st.args != [] && st.args[0] == []
    && (st.state <= 3 || (st.state == 6 && |st.args| == 1))
    && (1 <= st.state <= 3 ==> |st.args| >= 2)
    && (st.state == 3 ==> st.slash == 1)
    && (|st.args| >= 3 || (|st.args| == 2 && st.state != 2) ==> st.args[1] != [])
  }

  /** What holds after `i` units. */
  ghost predicate Bounded(st: State, i: nat) {
    && st.Valid()
    && 2 * |st.args| <= i + (if st.state == 0 then 1 else 2)
    && (2 * |st.args| == i + (if st.state == 0 then 1 else 2) ==> TightShape(st))
    && |Memory(st.args, st.state == 0)| <= 3 * i
    && EndsInSlashes(st.args[|st.args| - 1], st.slash)
    && forall j :: 0 <= j < |st.args| ==> 0 !in st.args[j]
  }

  lemma MemoryEmit(st: State, c: bv32)
    requires st.args != []
    ensures Memory(st.Emit(c).args, false) == Memory(st.args, false) + Encode(c)
    ensures |st.Emit(c).args| == |st.args|
    ensures forall j :: 0 <= j < |st.args| - 1 ==> st.Emit(c).args[j] == st.args[j]
    ensures st.Emit(c).args[|st.args| - 1] == st.args[|st.args| - 1] + Encode(c)
  {
    hide Encode;
    var k := |st.args| - 1;
    assert st.Emit(c).args[..k] == st.args[..k];
  }

  lemma MemoryOpen(st: State)
    ensures Memory(st.Open().args, false) == Joined(st.args)
  {
    assert st.Open().args[..|st.args|] == st.args;
    assert Joined(st.args) + [] == Joined(st.args);
  }

  lemma MemoryRetract(st: State, n: nat)
    requires st.args != [] && n <= |st.args[|st.args| - 1]|
    ensures |Memory(st.Retract(n).args, false)| == |Memory(st.args, false)| - n
    ensures Memory(st.Retract(n).args, false) == Memory(st.args, false)[..|Memory(st.args, false)| - n]
  {
    var k := |st.args| - 1;
    assert st.Retract(n).args[..k] == st.args[..k];
  }

  lemma MemoryClose(st: State)
    requires st.args != []
    ensures Memory(st.args, true) == Memory(st.args, false) + [0]
  {
  }

  function Size(c: bv32): nat { if c >= 0x10000 then 2 else 1 }

  lemma EncodeSize(c: bv32)
    requires c != 0 && c < 0x110000
    ensures |Encode(c)| <= 3 * Size(c) && 0 !in Encode(c)
  {
  }

  lemma EmitBounded(st: State, c: bv32, i: nat, after: State)
    requires st.args != [] && c != 0 && c < 0x110000
    requires |Memory(st.args, false)| <= 3 * i && forall j :: 0 <= j < |st.args| ==> 0 !in st.args[j]
    requires after.args == st.Emit(c).args
    ensures |after.args| == |st.args| && |Memory(after.args, false)| <= 3 * (i + Size(c))
    ensures forall j :: 0 <= j < |after.args| ==> 0 !in after.args[j]
    ensures after.args[|st.args| - 1] == st.args[|st.args| - 1] + Encode(c) && after.args[|st.args| - 1] != []
    ensures forall j :: 0 <= j < |st.args| - 1 ==> after.args[j] == st.args[j]
  {
    hide Encode, Memory;
    MemoryEmit(st, c);
    EncodeSize(c);
    assert Encode(c) != [];
  }

  lemma EmitSlash(last: Text, n: nat)
    requires EndsInSlashes(last, n)
    ensures EndsInSlashes(last + Encode(SLASH), n + 1)
  {
    EncodeSlash();
  }

  lemma Feed0Bounded(st: State, c: bv32, i: nat)
    requires st.state == 0 && Bounded(st, i) && c != 0 && c < 0x110000
    ensures Bounded(Feed(st, c), i + Size(c))
  {
    hide Encode, Memory;
    if !Blank(c) {
      MemoryOpen(st);
      MemoryClosed(st);
      if c != QUOTE {
        EmitBounded(st.Open(), c, i, Feed(st, c));
        if c == SLASH {
          EmitSlash([], 0);
          assert [] + Encode(c) == Encode(c);
        }
      }
    }
  }

  lemma MemoryClosed(st: State)
    requires st.args != []
    ensures Memory(st.args, true) == Joined(st.args)
  {
  }

  /** Inside a token: a blank closes it, a quote switches state, anything else is printed. */
  lemma Feed1Bounded(st: State, c: bv32, i: nat)
    requires st.state == 1 && Bounded(st, i) && c != 0 && c < 0x110000
    ensures Bounded(Feed(st, c), i + Size(c))
  {
    hide Encode, Memory;
    if Blank(c) {
      MemoryClose(st);
    } else if c != QUOTE {
      EmitBounded(st, c, i, Feed(st, c));
      if c == SLASH {
        EmitSlash(st.args[|st.args| - 1], 0);
      }
    }
  }

  lemma Feed2Bounded(st: State, c: bv32, i: nat)
    requires st.state == 2 && Bounded(st, i) && c != 0 && c < 0x110000
    ensures Bounded(Feed(st, c), i + Size(c))
  {
    hide Encode, Memory;
    if c != QUOTE {
      EmitBounded(st, c, i, Feed(st, c));
      if c == SLASH {
        EmitSlash(st.args[|st.args| - 1], 0);
      }
    }
  }

  lemma FeedProgramBounded(st: State, c: bv32, i: nat)
    requires st.state >= 6 && Bounded(st, i) && c != 0 && c < 0x110000
    ensures Bounded(Feed(st, c), i + Size(c))
  {
    hide Encode, Memory;
    if Feed(st, c).state == 0 {
      MemoryClose(st);
    } else if c != QUOTE || st.state == 7 {
      EmitBounded(st, c, i, Feed(st, c));
    }
  }

  /** Taking back backslashes keeps the bounds: it stays within the current argument. */
  lemma RetractBounded(st: State, i: nat)
    requires (st.state == 3 || st.state == 4) && Bounded(st, i)
    ensures var half := st.Retract((1 + st.slash) / 2).Go(st.state - 2);
      && half.Valid() && |half.args| == |st.args|
      && |Memory(half.args, false)| <= 3 * i
      && (forall j :: 0 <= j < |half.args| - 1 ==> half.args[j] == st.args[j])
      && (forall j :: 0 <= j < |half.args| ==> 0 !in half.args[j])
  {
    hide Memory;
    MemoryRetract(st, (1 + st.slash) / 2);
  }

  lemma FeedSlashedBounded(st: State, c: bv32, i: nat)
    requires (st.state == 3 || st.state == 4) && Bounded(st, i) && c != 0 && c < 0x110000
    ensures Bounded(FeedSlashed(st, c), i + Size(c))
  {
    hide Encode, Memory;
    if c == SLASH {
      EmitBounded(st, c, i, FeedSlashed(st, c));
      EmitSlash(st.args[|st.args| - 1], st.slash);
    } else if c == QUOTE {
      RetractBounded(st, i);
      var half := st.Retract((1 + st.slash) / 2).Go(st.state - 2);
      if st.slash % 2 == 1 {
        EmitBounded(half, c, i, half.Emit(c));
      } else if st.state == 3 {
        assert Feed(half, c) == half.Go(2);
      } else {
        assert Feed(half, c) == half.Go(5);
      }
    } else if st.state == 3 {
      Feed1Bounded(st.Go(1), c, i);
    } else {
      assert 2 * |st.args| < i + 2;
      Feed2Bounded(st.Go(2), c, i);
    }
  }

  lemma PushedSame(st: State, c: bv32, i: nat)
    requires Bounded(st, i) && Pushes(st, c)
    ensures Bounded(Pushed(st, c), i) && Pushed(st, c).state < 3
    ensures Feed(Pushed(st, c), c) == Feed(st, c)
  {
    hide Encode, Memory;
    if st.state != 5 && c == QUOTE {
      RetractBounded(st, i);
    }
  }

  lemma FeedBounded(st: State, c: bv32, i: nat)
    requires Bounded(st, i) && c != 0 && c < 0x110000
    ensures Bounded(Feed(st, c), i + Size(c))
  {
    hide Encode, Memory, Joined;
    if st.state == 0 {
      Feed0Bounded(st, c, i);
    } else if st.state == 1 {
      Feed1Bounded(st, c, i);
    } else if st.state == 2 {
      Feed2Bounded(st, c, i);
    } else if st.state == 3 || st.state == 4 {
      FeedSlashedBounded(st, c, i);
    } else if st.state == 5 {
      if c == QUOTE {
        EmitBounded(st, c, i, Feed(st, c));
      } else {
        Feed1Bounded(st.Go(1), c, i);
      }
    } else {
      FeedProgramBounded(st, c, i);
    }
  }

  lemma {:induction false} RunBounded(st: State, cmd: Units, i: nat)
    requires Bounded(st, i) && 0 !in cmd
    ensures Bounded(Run(st, cmd), i + |cmd|)
    decreases |cmd|
  {
    hide Memory, EndsInSlashes, TightShape, Feed, FeedSlashed, Combine;
    if cmd != [] {
      FeedBounded(st, Decode(cmd), i);
      RunBounded(Feed(st, Decode(cmd)), cmd[Width(cmd)..], i + Width(cmd));
    }
  }

  /** The bounds on the number of arguments and on the bytes behind them, NULs included. */
  lemma SplitBounded(cmd: Units)
    requires 0 !in cmd
    ensures |Split(cmd)| <= 1 + |cmd| / 2
    ensures |Joined(Split(cmd))| <= 3 * |cmd| + 1
    ensures forall j :: 0 <= j < |Split(cmd)| ==> 0 !in Split(cmd)[j]
  {
    hide Run;
    assert Joined([[]]) == [0] && Memory([[]], false) == [];
    RunBounded(START, cmd, 0);
  }

  // ---------- the largest number of arguments ----------

  const ARGV_SLOTS := 16384
  const CMD_MAX := 32766

  /** As many one-letter arguments as fit. */
  function Letters(k: nat): Units {
    if k == 0 then [] else [SPACE16, 0x61] + Letters(k - 1)
  }

  /** How far the number of arguments is below what `i` units allow. */
  function Slack(st: State, i: nat): int {
    i + (if st.state == 0 then 1 else 2) - 2 * |st.args|
  }

  predicate BlankUnit(u: bv16) { u == 0x09 || u == SPACE16 }

  /** A blank and another unit in turn, with no quote but at the very end; `blank` tells which comes first. */
  predicate Alternates(blank: bool, cmd: Units)
    decreases |cmd|
  {
    cmd != [] ==>
      && BlankUnit(cmd[0]) == blank
      && (cmd[0] == QUOTE16 ==> |cmd| == 1)
      && Alternates(!blank, cmd[1..])
  }

  /** What must follow a state that has wasted nothing for the end to have wasted nothing. */
  predicate GoesOn(state: nat, cmd: Units) {
    if state == 2 then cmd == [] else Alternates(state != 0, cmd)
  }

  /** The states that waste no unit: a blank leaves states 1, 3 and 6, any other single unit leaves state 0. */
  predicate TightStep(state: nat, c: bv32) {
    if state == 0 then !Blank(c) && c < 0x10000 else state != 2 && Blank(c)
  }

  lemma PushedFeed(st: State, c: bv32)
    requires st.Valid() && Pushes(st, c)
    ensures var p := Pushed(st, c);
      p.Valid() && p.state != 0 && p.state < 3 && |p.args| == |st.args| && Feed(p, c) == Feed(st, c)
  {
    hide Encode;
  }

  lemma {:induction false} FeedCounts(st: State, c: bv32)
    requires st.Valid()
    ensures var r := Feed(st, c);
      if st.state == 0 && !Blank(c) then |r.args| == |st.args| + 1 && r.state != 0
      else |r.args| == |st.args| && (st.state != 0 && st.state < 8 && r.state == 0 ==> Blank(c))
    decreases if Pushes(st, c) then 1 else 0
  {
    hide Encode;
    if Pushes(st, c) {
      hide Feed;
      PushedFeed(st, c);
      FeedCounts(Pushed(st, c), c);
    }
  }

  /** Units once wasted stay wasted. */
  lemma FeedSlack(st: State, c: bv32, i: nat)
    requires st.Valid()
    ensures Slack(Feed(st, c), i + Size(c)) >= Slack(st, i)
  {
    hide Feed;
    FeedCounts(st, c);
  }

  lemma {:induction false} RunSlack(st: State, cmd: Units, i: nat)
    requires st.Valid()
    ensures Slack(Run(st, cmd), i + |cmd|) >= Slack(st, i)
    decreases |cmd|
  {
    if cmd != [] {
      hide Feed, Decode, Slack;
      FeedSlack(st, Decode(cmd), i);
      RunSlack(Feed(st, Decode(cmd)), cmd[Width(cmd)..], i + Width(cmd));
    }
  }

  /** A state that has wasted nothing: between arguments, just after their first unit, or at the very start. */
  predicate Tight(st: State, i: nat) {
    st.Valid() && Slack(st, i) == 0 && (st.state <= 3 || st.state == 6)
  }

  function NextTight(state: nat, c: bv32): nat {
    if state != 0 then 0 else if c == QUOTE then 2 else if c == SLASH then 3 else 1
  }

  lemma {:induction false} FeedTight(st: State, c: bv32, i: nat)
    requires Tight(st, i)
    ensures var r := Feed(st, c);
      if TightStep(st.state, c) then Tight(r, i + Size(c)) && r.state == NextTight(st.state, c)
      else Slack(r, i + Size(c)) > 0
    decreases if Pushes(st, c) then 1 else 0
  {
    hide Encode;
    FeedCounts(st, c);
    if Pushes(st, c) {
      hide Feed;
      PushedFeed(st, c);
      FeedTight(Pushed(st, c), c, i);
    }
  }

  lemma BlankSame(u: bv16)
    ensures Blank(u as bv32) <==> BlankUnit(u)
    ensures BlankUnit(u) ==> !High(u) && !Low(u)
    ensures u as bv32 == QUOTE <==> u == QUOTE16
    ensures u as bv32 < 0x10000
  {
  }

  /** The first unit decides, whether or not it is half of a pair. */
  lemma StepGoesOn(state: nat, cmd: Units)
    requires cmd != [] && (state <= 3 || state == 6)
    ensures var c := Decode(cmd);
      GoesOn(state, cmd) <==> (TightStep(state, c) && GoesOn(NextTight(state, c), cmd[Width(cmd)..]))
  {
    hide High, Low, Combine;
    BlankSame(cmd[0]);
    if Pair(cmd) {
      BlankSame(cmd[1]);
      assert cmd[1..][0] == cmd[1] && !BlankUnit(cmd[1]);
      assert !Alternates(true, cmd[1..]);
    } else {
      assert Decode(cmd) == cmd[0] as bv32 && Width(cmd) == 1;
      assert |cmd| == 1 <==> cmd[1..] == [];
      assert Alternates(true, []);
      assert Alternates(BlankUnit(cmd[0]), cmd)
        <==> ((cmd[0] == QUOTE16 ==> |cmd| == 1) && Alternates(!BlankUnit(cmd[0]), cmd[1..]));
    }
  }

  /** From a state that has wasted nothing, nothing is wasted exactly if blanks and other units alternate. */
  lemma {:induction false} RunTight(st: State, cmd: Units, i: nat)
    requires Tight(st, i)
    ensures Slack(Run(st, cmd), i + |cmd|) == 0 <==> GoesOn(st.state, cmd)
    decreases |cmd|
  {
    if cmd != [] {
      hide Feed, Decode, Slack, GoesOn, TightStep;
      var c, w := Decode(cmd), Width(cmd);
      StepGoesOn(st.state, cmd);
      FeedTight(st, c, i);
      if TightStep(st.state, c) {
        RunTight(Feed(st, c), cmd[w..], i + w);
      } else {
        RunSlack(Feed(st, c), cmd[w..], i + w);
      }
    }
  }

  /** The longest command lines in which blanks and other units alternate: all slots are taken by arguments. */
  predicate Fills(cmd: Units) {
    |cmd| == CMD_MAX && Alternates(true, cmd)
  }

  /** Exactly those have so many arguments that no slot is left for the closing null. */
  lemma MostExactly(cmd: Units)
    requires |cmd| <= CMD_MAX
    ensures |Split(cmd)| <= ARGV_SLOTS
    ensures |Split(cmd)| == ARGV_SLOTS <==> Fills(cmd)
  {
    hide Run, Alternates;
    RunSlack(START, cmd, 0);
    RunTight(START, cmd, 0);
  }

  lemma {:induction false} LettersAlternate(k: nat)
    ensures |Letters(k)| == 2 * k && Alternates(true, Letters(k))
  {
    if k > 0 {
      LettersAlternate(k - 1);
      var rest := Letters(k - 1);
      assert Letters(k)[1..] == [0x61] + rest && ([0x61] + rest)[1..] == rest;
      assert Alternates(false, [0x61] + rest);
    }
  }

  /** The longest command line can hold one argument more than leaves room for the closing null. */
  lemma MostArguments()
    ensures |Letters(CMD_MAX / 2)| == CMD_MAX && |Split(Letters(CMD_MAX / 2))| == ARGV_SLOTS
  {
    hide Split, Alternates, Letters;
    LettersAlternate(CMD_MAX / 2);
    MostExactly(Letters(CMD_MAX / 2));
  }

  // ---------- the splitter ----------

  const NULL := -1

  /** Reading the bytes from `start` up to the first NUL gives `t`. */
  predicate Reads(bytes: Text, start: int, t: Text) {
    && 0 <= start && start + |t| < |bytes|
    && bytes[start..start + |t|] == t && 0 !in t && bytes[start + |t|] == 0
  }

  /** Where the arguments start, given the bytes printed so far. */
  ghost predicate Starts(argv: seq<int>, args: seq<Text>) {
    |argv| == |args| && forall j :: 0 <= j < |argv| ==> argv[j] == Start(args, j)
  }

  /** The splitter's output: argument starts in `argv`, and the bytes behind them. */
  class Splitter {
    const argv: array<int>
    const buf: array<bv8>
    var argc: nat
    var pos: nat
    var state: nat
    var slash: nat
    ghost var args: seq<Text>
    ghost var closed: bool

    /** The automaton's state; the backslash count is dead outside a run of backslashes. */
    ghost function Now(): State
      reads this
    {
      State(state, if state == 3 || state == 4 then slash else 0, args)
    }

    ghost predicate Running()
      reads this, argv, buf
    {
      Laid() && closed == (state == 0) && Now().Valid()
    }

    /** There is room for what one more character can print. */
    ghost predicate Room(c: bv32)
      reads this, argv, buf
      requires Now().Valid()
    {
      var after := Feed(Now(), c);
      |after.args| <= argv.Length && |Memory(after.args, after.state == 0)| <= buf.Length
    }

    ghost predicate Laid()
      reads this, argv, buf
    {
      && argv as object != buf
      && args != [] && argc == |args| && argc <= argv.Length && pos <= buf.Length
      && Starts(argv[..argc], args)
      && buf[..pos] == Memory(args, closed)
    }

    constructor (argv: array<int>, buf: array<bv8>)
      requires argv.Length == ARGV_SLOTS && argv as object != buf
      modifies argv
      ensures this.argv == argv && this.buf == buf && argc == 1 && pos == 0
      ensures state == 6 && args == [[]] && !closed
      ensures Running()
    {
      this.argv := argv;
      this.buf := buf;
      argc := 1;
      pos := 0;
      state := 6;
      slash := 0;
      args := [[]];
      closed := false;
      new;
      argv[0] := 0;
      assert argv[..1] == [0];
      assert Start([[]], 0) == 0 && Memory([[]], false) == [];
    }

    method Put(b: bv8)
      requires pos < buf.Length
      modifies this`pos, buf
      ensures pos == old(pos) + 1 && buf[..pos] == old(buf[..pos]) + [b]
    {
      buf[pos] := b;
      pos := pos + 1;
    }

    method PutEncoded(c: bv32)
      requires pos + |Encode(c)| <= buf.Length
      modifies this`pos, buf
      ensures pos == old(pos) + |Encode(c)| && buf[..pos] == old(buf[..pos]) + Encode(c)
    {
      hide Byte;
      ghost var before := buf[..pos];
      if c < 0x80 {
        Put(Byte(c));
      } else if c < 0x800 {
        var c1, c2 := Byte(0xc0 | (c >> 6)), Byte(0x80 | (c & 63));
        Put(c1);
        Put(c2);
        assert before + [c1] + [c2] == before + [c1, c2];
      } else if c < 0x10000 {
        var c1, c2, c3 := Byte(0xe0 | (c >> 12)), Byte(0x80 | ((c >> 6) & 63)), Byte(0x80 | (c & 63));
        Put(c1);
        Put(c2);
        Put(c3);
        assert before + [c1] + [c2] + [c3] == before + [c1, c2, c3];
      } else {
        PutFour(Byte(0xf0 | (c >> 18)), Byte(0x80 | ((c >> 12) & 63)), Byte(0x80 | ((c >> 6) & 63)), Byte(0x80 | (c & 63)));
      }
    }

    method PutFour(c1: bv8, c2: bv8, c3: bv8, c4: bv8)
      requires pos + 4 <= buf.Length
      modifies this`pos, buf
      ensures pos == old(pos) + 4 && buf[..pos] == old(buf[..pos]) + [c1, c2, c3, c4]
    {
      ghost var before := buf[..pos];
      Put(c1);
      Put(c2);
      Put(c3);
      Put(c4);
      assert before + [c1] + [c2] + [c3] + [c4] == before + [c1, c2, c3, c4];
    }

    /** Encodes a character at the end of the last argument. */
    method Emit(c: bv32)
      requires Laid() && !closed && pos + |Encode(c)| <= buf.Length
      modifies this`pos, this`args, buf
      ensures Laid() && args == State(0, 0, old(args)).Emit(c).args
    {
      hide Memory, Encode;
      MemoryEmit(State(0, 0, args), c);
      StartsKept(argv[..argc], args, State(0, 0, args).Emit(c).args);
      PutEncoded(c);
      args := State(0, 0, args).Emit(c).args;
    }

    /** Ends the last argument with a NUL. */
    method Close()
      requires Laid() && !closed && pos < buf.Length
      modifies this`pos, this`closed, buf
      ensures Laid() && closed
    {
      MemoryClose(State(0, 0, args));
      Put(0);
      closed := true;
    }

    /** Begins a new argument at the current position. */
    method Open()
      requires Laid() && closed && argc < argv.Length
      modifies this`argc, this`args, this`closed, argv
      ensures Laid() && !closed && args == old(args) + [[]]
    {
      MemoryOpen(State(0, 0, args));
      MemoryClosed(State(0, 0, args));
      StartsOpened(argv[..argc], args);
      argv[argc] := pos;
      argc := argc + 1;
      args := args + [[]];
      closed := false;
      assert argv[..argc] == old(argv[..argc]) + [pos];
    }

    /** Takes back the last `n` bytes, all of the last argument. */
    method Retract(n: nat)
      requires Laid() && !closed && n <= |args[|args| - 1]|
      modifies this`pos, this`args
      ensures Laid() && args == State(0, 0, old(args)).Retract(n).args
    {
      var st := State(0, 0, args);
      MemoryRetract(st, n);
      StartsKept(argv[..argc], args, st.Retract(n).args);
      pos := pos - n;
      args := st.Retract(n).args;
      assert buf[..pos] == old(buf[..pos])[..pos];
    }

    /** Outside a token. */
    method Take0(c: bv32)
      requires Running() && state == 0 && Room(c)
      modifies this, argv, buf
      ensures Running() && Now() == Feed(old(Now()), c)
    {
      hide Encode, Memory, Starts;
      if Blank(c) {
        return;
      }
      Open();
      if c == QUOTE {
        state := 2;
        return;
      }
      RoomToEmit(State(0, 0, args), c);
      Emit(c);
      if c == SLASH {
        slash := 1;
        state := 3;
      } else {
        state := 1;
      }
    }

    /** Inside an unquoted token. */
    method Take1(c: bv32)
      requires Running() && state == 1 && Room(c)
      modifies this, argv, buf
      ensures Running() && Now() == Feed(old(Now()), c)
    {
      hide Encode, Memory, Starts;
      if Blank(c) {
        RoomToClose(Now());
        Close();
        state := 0;
      } else if c == QUOTE {
        state := 2;
      } else {
        RoomToEmit(Now(), c);
        Emit(c);
        if c == SLASH {
          slash := 1;
          state := 3;
        }
      }
    }

    /** Inside a quoted token. */
    method Take2(c: bv32)
      requires Running() && state == 2 && Room(c)
      modifies this, argv, buf
      ensures Running() && Now() == Feed(old(Now()), c)
    {
      hide Encode, Memory, Starts;
      if c == QUOTE {
        state := 5;
      } else {
        RoomToEmit(Now(), c);
        Emit(c);
        if c == SLASH {
          slash := 1;
          state := 4;
        }
      }
    }

    /** After backslashes; `again` says that the character is pushed back. */
    method TakeSlashed(c: bv32) returns (again: bool)
      requires Running() && (state == 3 || state == 4) && Room(c)
      modifies this, argv, buf
      ensures Running()
      ensures !again ==> Now() == Feed(old(Now()), c)
      ensures again <==> Pushes(old(Now()), c)
      ensures again ==> Now() == Pushed(old(Now()), c)
    {
      hide Encode, Memory, Starts;
      assert Feed(Now(), c) == FeedSlashed(Now(), c);
      if c == SLASH {
        RoomToEmit(Now(), c);
        Emit(c);
        slash := slash + 1;
        return false;
      }
      if c == QUOTE {
        Retract((1 + slash) / 2);
        if slash % 2 == 1 {
          state := state - 2;
          RoomToEmit(Now(), c);
          Emit(c);
          return false;
        }
      }
      state := state - 2;
      again := true;
    }

    /** After a quote that may have closed a quoted token. */
    method Take5(c: bv32) returns (again: bool)
      requires Running() && state == 5 && Room(c)
      modifies this, argv, buf
      ensures Running()
      ensures !again ==> Now() == Feed(old(Now()), c)
      ensures again <==> Pushes(old(Now()), c)
      ensures again ==> Now() == Pushed(old(Now()), c)
    {
      hide Encode, Memory, Starts;
      again := c != QUOTE;
      if c == QUOTE {
        RoomToEmit(Now(), c);
        Emit(c);
      }
      state := 1;
    }

    /** In the program name, which knows no escapes. */
    method TakeProgram(c: bv32)
      requires Running() && state >= 6 && Room(c)
      modifies this, argv, buf
      ensures Running() && Now() == Feed(old(Now()), c)
    {
      hide Encode, Memory, Starts;
      if (state == 8 && c == QUOTE) || (state != 8 && Blank(c)) {
        MemoryClose(Now());
        RoomToClose(Now());
        Close();
        state := 0;
      } else if state == 6 && c == QUOTE {
        state := 8;
      } else {
        RoomToEmit(Now(), c);
        Emit(c);
        state := if state == 6 then 7 else state;
      }
    }

    lemma RoomLeft()
      requires Running() && |Memory(args, state == 0)| < buf.Length
      ensures pos < buf.Length && argc == |args| <= argv.Length
    {
      hide Memory, Starts;
    }

    /** Closes the last argument, or puts one more NUL behind a closed one. */
    method Finish()
      requires Running() && pos < buf.Length
      modifies buf
      ensures Starts(argv[..argc], args)
      ensures |Joined(args)| <= buf.Length && buf[..|Joined(args)|] == Joined(args)
    {
      hide Starts;
      if state != 0 {
        MemoryClose(State(0, 0, args));
      }
      MemoryClosed(State(0, 0, args));
      hide Memory;
      buf[pos] := 0;
      assert buf[..pos + 1] == old(buf[..pos]) + [0];
    }

    /** One round of the automaton. */
    method Take(c: bv32) returns (again: bool)
      requires Running() && Room(c)
      modifies this, argv, buf
      ensures Running()
      ensures !again ==> Now() == Feed(old(Now()), c)
      ensures again <==> Pushes(old(Now()), c)
      ensures again ==> Now() == Pushed(old(Now()), c)
    {
      hide Laid, Feed;
      again := false;
      if state == 0 {
        Take0(c);
      } else if state == 1 {
        Take1(c);
      } else if state == 2 {
        Take2(c);
      } else if state == 3 || state == 4 {
        again := TakeSlashed(c);
      } else if state == 5 {
        again := Take5(c);
      } else {
        TakeProgram(c);
      }
    }
  }

  lemma RoomToClose(st: State)
    requires st.args != []
    ensures |Memory(st.args, true)| == |Memory(st.args, false)| + 1
  {
    hide Memory;
    MemoryClose(st);
  }

  lemma RoomToEmit(st: State, c: bv32)
    requires st.args != []
    ensures |Memory(st.Emit(c).args, false)| == |Memory(st.args, false)| + |Encode(c)|
  {
    hide Encode, Memory;
    MemoryEmit(st, c);
  }

  lemma StartsKept(argv: seq<int>, args: seq<Text>, more: seq<Text>)
    requires Starts(argv, args) && args != [] && |more| == |args|
    requires forall j :: 0 <= j < |args| - 1 ==> more[j] == args[j]
    ensures Starts(argv, more)
  {
    forall j | 0 <= j < |args| ensures Start(more, j) == Start(args, j) {
      assert more[..j] == args[..j];
    }
  }

  lemma StartsOpened(argv: seq<int>, args: seq<Text>)
    requires Starts(argv, args)
    ensures Starts(argv + [|Joined(args)|], args + [[]])
  {
    forall j | 0 <= j <= |args| ensures Start(args + [[]], j) == Start(args, j) {
      assert (args + [[]])[..j] == args[..j];
    }
    assert args[..|args|] == args;
  }

  // ---------- the whole command line ----------

  method Next(cmd: Units, i: nat) returns (c: bv32, j: nat)
    requires i < |cmd|
    ensures c == Decode(cmd[i..]) && j == i + Width(cmd[i..])
  {
    hide High, Low, Combine;
    c := cmd[i] as bv32;
    j := i + 1;
    if High(cmd[i]) && j < |cmd| && Low(cmd[j]) {
      c := Combine(cmd[i], cmd[j]);
      j := j + 1;
    }
  }

  lemma RunFrom(st: State, cmd: Units, i: nat)
    requires st.Valid() && i < |cmd|
    ensures i + Width(cmd[i..]) <= |cmd|
    ensures Run(st, cmd[i..]) == Run(Feed(st, Decode(cmd[i..])), cmd[i + Width(cmd[i..])..])
  {
    hide Feed, Decode, Run;
    RunStep(st, cmd[i..]);
    assert cmd[i..][Width(cmd[i..])..] == cmd[i + Width(cmd[i..])..];
  }

  lemma RunSame(a: State, b: State, cmd: Units)
    requires a.Valid() && b.Valid() && cmd != [] && Feed(a, Decode(cmd)) == Feed(b, Decode(cmd))
    ensures Run(a, cmd) == Run(b, cmd)
  {
    hide Feed, Decode, Width;
  }

  lemma RunDone(cmd: Units, st: State)
    requires st.Valid() && Run(st, []) == Run(START, cmd)
    ensures st.args == Split(cmd)
  {
  }

  /** Each argument reads back from its start. */
  lemma {:induction false} JoinedReads(args: seq<Text>, bytes: Text, j: nat)
    requires j < |args| && |Joined(args)| <= |bytes| && bytes[..|Joined(args)|] == Joined(args)
    requires 0 !in args[j]
    ensures Reads(bytes, Start(args, j), args[j])
  {
    var k := |args| - 1;
    var before := Joined(args[..k]);
    assert Joined(args) == before + args[k] + [0];
    if j < k {
      assert bytes[..|before|] == before;
      JoinedReads(args[..k], bytes, j);
      assert args[..k][..j] == args[..j];
    } else {
      var all := |before| + |args[k]| + 1;
      assert bytes[..all][|before|..|before| + |args[k]|] == args[k];
      assert bytes[..all][|before| + |args[k]|] == 0;
    }
  }

  /** In the longest command line with the most arguments, the second one is not empty. */
  lemma MostSecond(cmd: Units)
    requires 0 !in cmd && |cmd| <= CMD_MAX && |Split(cmd)| == ARGV_SLOTS
    ensures Split(cmd)[0] == [] && Split(cmd)[1] != [] && Start(Split(cmd), 1) == 1
  {
    hide Run;
    assert Joined([[]]) == [0] && Memory([[]], false) == [];
    RunBounded(START, cmd, 0);
    var st := Run(START, cmd);
    assert TightShape(st);
    assert st.args[..1] == [[]];
  }

  /** Splits `cmd` into `argv` and `buf`, which lie one behind the other: the first `pointer` bytes of
      `buf` are the slot after the last of `argv`. Every argument reads back from its slot exactly when
      the closing null has a slot of its own, which it has unless the command line is the longest possible
      and blanks and other units alternate in it, with no quote but at the very end. */
  method SplitInto(cmd: Units, argv: array<int>, buf: array<bv8>, pointer: nat) returns (argc: nat)
    requires 0 !in cmd && |cmd| <= CMD_MAX
    requires argv.Length == ARGV_SLOTS && argv as object != buf
    requires 2 <= pointer <= buf.Length && buf.Length > 3 * CMD_MAX
    modifies argv, buf
    ensures argc == |Split(cmd)| <= ARGV_SLOTS
    ensures argc < ARGV_SLOTS <==> !Fills(cmd)
    ensures !Fills(cmd) ==> argv[argc] == NULL
    ensures !Fills(cmd) <==> forall j :: 0 <= j < argc ==> Reads(buf[..], argv[j], Split(cmd)[j])
  {
    hide Run, Fills, Bounded, Splitter.Laid, Joined, Memory, Feed, FeedSlashed, Decode, Width, Reads, Starts;
    var s := new Splitter(argv, buf);
    StartBounded();
    var i := 0;
    assert cmd[0..] == cmd;
    while i < |cmd|
      invariant i <= |cmd| && s.argv == argv && s.buf == buf
      invariant s.Running() && Bounded(s.Now(), i)
      invariant Run(s.Now(), cmd[i..]) == Run(START, cmd)
      decreases |cmd| - i, if 3 <= s.state <= 5 then 1 else 0
    {
      var c, j := Next(cmd, i);
      RoomFor(s.Now(), cmd, i);
      RunFrom(s.Now(), cmd, i);
      ghost var before := s.Now();
      var again := s.Take(c);
      if again {
        PushedSame(before, c, i);
        RunSame(before, s.Now(), cmd[i..]);
      } else {
        i := j;
      }
    }
    assert cmd[i..] == [];
    RunDone(cmd, s.Now());
    EndBounded(s.Now(), cmd);
    s.RoomLeft();
    s.Finish();
    argc := s.argc;
    MostExactly(cmd);
    ghost var text := buf[..];
    forall j | 0 <= j < argc ensures Reads(text, argv[j], Split(cmd)[j]) {
      JoinedReads(Split(cmd), text, j);
      StartsAt(argv[..argc], Split(cmd), j);
    }
    if argc < ARGV_SLOTS {
      argv[argc] := NULL;
    } else {
      StartsAt(argv[..argc], Split(cmd), 1);
      MostSecond(cmd);
      Clobber(buf, pointer);
      NotReads(buf[..], Split(cmd)[1]);
    }
  }

  method Clobber(buf: array<bv8>, pointer: nat)
    requires pointer <= buf.Length
    modifies buf
    ensures forall k :: 0 <= k < pointer ==> buf[k] == 0
  {
    for k := 0 to pointer
      invariant forall m :: 0 <= m < k ==> buf[m] == 0
    {
      buf[k] := 0;
    }
  }

  lemma NotReads(bytes: Text, t: Text)
    requires |bytes| > 1 && bytes[1] == 0 && t != []
    ensures !Reads(bytes, 1, t)
  {
    if 1 + |t| < |bytes| {
      assert bytes[1..1 + |t|][0] == 0;
    }
  }

  /** The line of one-letter arguments that fills all slots: once the closing null clears the bytes it lies on, the
      second argument does not read back. */
  lemma LettersUnread(bytes: Text)
    requires |bytes| > 1 && bytes[0] == 0 && bytes[1] == 0
    ensures var cmd := Letters(CMD_MAX / 2); var args := Split(cmd);
      Fills(cmd) && |args| == ARGV_SLOTS && !Reads(bytes, Start(args, 1), args[1])
  {
    hide Split, Alternates, Reads, Letters, Start;
    var cmd := Letters(CMD_MAX / 2);
    LettersAlternate(CMD_MAX / 2);
    MostArguments();
    LettersHold(CMD_MAX / 2);
    MostSecond(cmd);
    NotReads(bytes, Split(cmd)[1]);
  }

  lemma {:induction false} LettersHold(k: nat)
    ensures 0 !in Letters(k)
  {
    if k > 0 {
      LettersHold(k - 1);
    }
  }

  lemma StartsAt(argv: seq<int>, args: seq<Text>, j: nat)
    requires Starts(argv, args) && j < |argv|
    ensures j < |args| && argv[j] == Start(args, j)
  {
  }

  lemma StartBounded()
    ensures Bounded(START, 0)
  {
    assert Memory([[]], false) == [];
  }

  lemma EndBounded(st: State, cmd: Units)
    requires Bounded(st, |cmd|) && |cmd| <= CMD_MAX
    ensures |st.args| <= ARGV_SLOTS && (|cmd| < CMD_MAX ==> |st.args| < ARGV_SLOTS)
    ensures |Memory(st.args, st.state == 0)| <= 3 * CMD_MAX
    ensures forall j :: 0 <= j < |st.args| ==> 0 !in st.args[j]
  {
    hide Memory;
  }

  /** Room for a character that the command line still holds. */
  lemma RoomFor(st: State, cmd: Units, i: nat)
    requires Bounded(st, i) && i < |cmd| <= CMD_MAX && 0 !in cmd
    ensures Bounded(Feed(st, Decode(cmd[i..])), i + Width(cmd[i..]))
    ensures var after := Feed(st, Decode(cmd[i..]));
      |after.args| <= ARGV_SLOTS && |Memory(after.args, after.state == 0)| <= 3 * CMD_MAX
  {
    hide Feed, Combine, Memory, EndsInSlashes, TightShape;
    var c := Decode(cmd[i..]);
    assert cmd[i] in cmd;
    FeedBounded(st, c, i);
  }
}
