/** What every form of a Windows command line splits into: words, quoted parts, backslashes and doubled quotes. */
module CommandWords {
  import opened CommandLine

  // ---------- a token, piece by piece ----------

  /** Text without quotes; backslashes before a quote that is printed, before one that starts or ends a quoted part, or
      before two that end a quoted part and are printed as one. */
  datatype Piece = Text(units: Units) | Literal(slashes: nat) | Toggle(slashes: nat) | Doubled(slashes: nat)

  function Spell(p: Piece): Units {
    match p
    case Text(units) => units
    case Literal(n) => Slashes(2 * n + 1) + [QUOTE16]
    case Toggle(n) => Slashes(2 * n) + [QUOTE16]
    case Doubled(n) => Slashes(2 * n) + [QUOTE16, QUOTE16]
  }

  const QUOTE8: bv8 := 0x22

  function Prints(p: Piece): seq<bv8> {
    match p
    case Text(units) => Wtf8(units)
    case Literal(n) => Slash8s(n) + [QUOTE8]
    case Toggle(n) => Slash8s(n)
    case Doubled(n) => Slash8s(n) + [QUOTE8]
  }

  /** Text outside quotes has no blanks, and inside does not end in a backslash; two quotes that are printed as one only end a quoted part. */
  predicate Fits(quoted: bool, p: Piece) {
    match p
    case Text(units) =>
      && units != [] && QUOTE16 !in units
      && if quoted then units[|units| - 1] != SLASH16 else forall u :: u in units ==> !BlankUnit(u)
    case Doubled(_) => quoted
    case _ => true
  }

  function Afterwards(quoted: bool, p: Piece): bool {
    match p
    case Toggle(_) => !quoted
    case Doubled(_) => false
    case _ => quoted
  }

  /** What may follow: text does not run into more text or, by its last backslash, into a quote; a quote that ends a
      quoted part does not run into another. */
  predicate MayFollow(quoted: bool, p: Piece, next: Piece) {
    match p
    case Text(units) => !next.Text? && units != [] && units[|units| - 1] != SLASH16
    case Toggle(_) => quoted ==> next != Toggle(0)
    case _ => true
  }

  predicate WellFormed(quoted: bool, ps: seq<Piece>)
    decreases |ps|
  {
    ps != [] ==>
      && Fits(quoted, ps[0])
      && (|ps| > 1 ==> MayFollow(quoted, ps[0], ps[1]))
      && WellFormed(Afterwards(quoted, ps[0]), ps[1..])
  }

  /** Whether a quoted part is still open at the end. */
  function Open(quoted: bool, ps: seq<Piece>): bool
    decreases |ps|
  {
    if ps == [] then quoted else Open(Afterwards(quoted, ps[0]), ps[1..])
  }

  function SpellAll(ps: seq<Piece>): Units {
    if ps == [] then [] else Spell(ps[0]) + SpellAll(ps[1..])
  }

  function PrintAll(ps: seq<Piece>): seq<bv8> {
    if ps == [] then [] else Prints(ps[0]) + PrintAll(ps[1..])
  }

  // ---------- a line ----------

  datatype Item = Item(blanks: Units, pieces: seq<Piece>)

  /** A program name: as it is, up to a blank, or in quotes; backslashes mean nothing in it. */
  datatype Program = Bare(name: Units) | InQuotes(name: Units)

  predicate GoodProgram(p: Program) {
    match p
    case Bare(name) => name != [] && name[0] != QUOTE16 && forall u :: u in name ==> !BlankUnit(u)
    case InQuotes(name) => QUOTE16 !in name
  }

  predicate Blanks(s: Units) { forall u :: u in s ==> BlankUnit(u) }

  predicate GoodItem(i: Item) {
    i.blanks != [] && Blanks(i.blanks) && i.pieces != [] && WellFormed(false, i.pieces)
  }

  /** Only the last token may leave a quoted part open, and then nothing follows it. */
  predicate GoodLine(items: seq<Item>, tail: Units) {
    && (forall i :: 0 <= i < |items| ==> GoodItem(items[i]))
    && (forall i :: 0 <= i < |items| && Open(false, items[i].pieces) ==> i == |items| - 1 && tail == [])
    && Blanks(tail)
  }

  function ProgramText(p: Program): Units {
    match p
    case Bare(name) => name
    case InQuotes(name) => [QUOTE16] + name + [QUOTE16]
  }

  function ItemsText(items: seq<Item>, tail: Units): Units {
    if items == [] then tail else items[0].blanks + (SpellAll(items[0].pieces) + ItemsText(items[1..], tail))
  }

  function Printed(items: seq<Item>): seq<seq<bv8>> {
    if items == [] then [] else [PrintAll(items[0].pieces)] + Printed(items[1..])
  }

  // ---------- runs of ordinary characters ----------

  function RunArgs(st: State, cmd: Units): seq<seq<bv8>>
    requires st.Valid()
  {
    Run(st, cmd).args
  }

  /** In state `b`, or after `n` backslashes in it, with `last` printed since the token began. */
  function Inside(b: nat, done: seq<seq<bv8>>, last: seq<bv8>, n: nat): State {
    State(if n == 0 then b else b + 2, n, done + [last])
  }

  predicate Base(b: nat, n: nat) { b == 1 || b == 2 || ((b == 7 || b == 8) && n == 0) }

  predicate Ordinary(b: nat, c: bv32) {
    (b == 1 || b == 7 ==> !Blank(c)) && (b != 7 ==> c != QUOTE)
  }

  predicate OrdinaryUnit(b: nat, u: bv16) {
    (b == 1 || b == 7 ==> !BlankUnit(u)) && (b != 7 ==> u != QUOTE16)
  }

  /** The number of backslashes at the end, after `n` more. */
  function Trail(n: nat, t: Units): nat
    decreases |t|
  {
    if t == [] then n else Trail(if t[0] == SLASH16 then n + 1 else 0, t[1..])
  }

  function Counted(b: nat, n: nat, c: bv32): nat { if b <= 2 && c == SLASH then n + 1 else 0 }

  lemma FeedOrdinary(b: nat, done: seq<seq<bv8>>, last: seq<bv8>, n: nat, c: bv32)
    requires Base(b, n) && n <= |last| && Ordinary(b, c)
    ensures Feed(Inside(b, done, last, n), c) == Inside(b, done, last + Encode(c), Counted(b, n, c))
  {
    hide Encode;
    var st := Inside(b, done, last, n);
    EmitLast(done, last, c, b, 0);
    EmitLast(done, last, c, b + 2, n);
    if n > 0 && c != SLASH {
      assert Feed(State(b, 0, done + [last]), c) == State(b, 0, done + [last + Encode(c)]);
    }
  }

  lemma OrdinaryDecoded(b: nat, t: Units)
    requires t != [] && forall u :: u in t ==> OrdinaryUnit(b, u)
    ensures Ordinary(b, Decode(t))
    ensures Decode(t) == SLASH <==> Width(t) == 1 && t[0] == SLASH16
    ensures Width(t) == 2 ==> t[0] != SLASH16 && t[1] != SLASH16
  {
    hide Decode, Width, Ordinary, OrdinaryUnit;
    assert OrdinaryUnit(b, t[0]);
    PairUnits(t);
    DecodedSlash(t);
    if Width(t) == 2 {
      LargeOrdinary(b, Decode(t));
    } else {
      UnitOrdinary(b, t[0]);
    }
  }

  lemma DecodedSlash(t: Units)
    requires t != []
    ensures Decode(t) == SLASH <==> Width(t) == 1 && t[0] == SLASH16
  {
    hide Decode, Width;
    PairUnits(t);
    SlashSame(t[0]);
  }

  lemma PairUnits(t: Units)
    requires t != []
    ensures Width(t) == 1 || Width(t) == 2
    ensures Width(t) == 1 ==> Decode(t) == t[0] as bv32
    ensures Width(t) == 2 ==> |t| >= 2 && t[0] != SLASH16 && t[1] != SLASH16 && Decode(t) >= 0x10000
  {
    hide High, Low, Combine;
    SlashSame(SLASH16);
  }

  lemma LargeOrdinary(b: nat, c: bv32)
    requires c >= 0x10000
    ensures Ordinary(b, c) && c != SLASH
  {
  }

  lemma UnitOrdinary(b: nat, u: bv16)
    requires OrdinaryUnit(b, u)
    ensures Ordinary(b, u as bv32)
  {
    hide Blank, BlankUnit;
    BlankSame(u);
  }

  lemma SlashSame(u: bv16)
    ensures u as bv32 == SLASH <==> u == SLASH16
    ensures u == SLASH16 || u == QUOTE16 ==> !High(u) && !Low(u)
  {
  }

  predicate NoLow(rest: Units) { rest != [] ==> !Low(rest[0]) }

  lemma DecodeBefore(t: Units, rest: Units)
    requires t != [] && NoLow(rest)
    ensures Width(t + rest) == Width(t) && Decode(t + rest) == Decode(t)
    ensures (t + rest)[Width(t)..] == t[Width(t)..] + rest
  {
    hide High, Low;
    DecodeSame(t + rest, t);
  }

  lemma TrailStep(b: nat, n: nat, t: Units)
    requires t != [] && (b == 1 || b == 2) && forall u :: u in t ==> OrdinaryUnit(b, u)
    ensures Trail(n, t) == Trail(Counted(b, n, Decode(t)), t[Width(t)..])
  {
    hide Decode, Width, OrdinaryUnit, Trail;
    OrdinaryDecoded(b, t);
    PairUnits(t);
    TrailFirst(n, t);
    if Width(t) == 1 {
      assert Counted(b, n, Decode(t)) == if t[0] == SLASH16 then n + 1 else 0;
    } else {
      assert Counted(b, n, Decode(t)) == 0;
      TrailFirst(0, t[1..]);
      assert t[1..][0] == t[1] && t[1..][1..] == t[2..];
    }
  }

  lemma TrailFirst(n: nat, t: Units)
    requires t != []
    ensures Trail(n, t) == Trail(if t[0] == SLASH16 then n + 1 else 0, t[1..])
  {
  }

  /** Ordinary characters print themselves. */
  lemma {:induction false} RunText(b: nat, done: seq<seq<bv8>>, last: seq<bv8>, n: nat, t: Units, rest: Units)
    requires Base(b, n) && n <= |last| && (forall u :: u in t ==> OrdinaryUnit(b, u)) && NoLow(rest)
    ensures var m := if b <= 2 then Trail(n, t) else 0;
      m <= |last + Wtf8(t)|
      && Run(Inside(b, done, last, n), t + rest) == Run(Inside(b, done, last + Wtf8(t), m), rest)
    decreases |t|
  {
    if t == [] {
      hide Run;
      assert t + rest == rest && last + [] == last;
    } else {
      hide Run, Feed, FeedSlashed, Decode, Width, Encode, Inside, Trail, NoLow, OrdinaryUnit, Wtf8;
      var c, w := Decode(t), Width(t);
      OrdinaryDecoded(b, t);
      DecodeBefore(t, rest);
      InsideValid(b, done, last, n);
      RunStep(Inside(b, done, last, n), t + rest);
      FeedOrdinary(b, done, last, n, c);
      CountedFits(b, last, n, c);
      RunText(b, done, last + Encode(c), Counted(b, n, c), t[w..], rest);
      if b <= 2 {
        TrailStep(b, n, t);
      }
      Wtf8Step(t);
      Pieces(last, Encode(c), Wtf8(t[w..]));
    }
  }

  lemma InsideValid(b: nat, done: seq<seq<bv8>>, last: seq<bv8>, n: nat)
    requires Base(b, n) && n <= |last|
    ensures Inside(b, done, last, n).Valid()
  {
  }

  lemma CountedFits(b: nat, last: seq<bv8>, n: nat, c: bv32)
    requires Base(b, n) && n <= |last|
    ensures Base(b, Counted(b, n, c)) && Counted(b, n, c) <= |last + Encode(c)|
  {
    hide Encode;
  }

  lemma Wtf8Step(t: Units)
    requires t != []
    ensures Wtf8(t) == Encode(Decode(t)) + Wtf8(t[Width(t)..])
  {
    hide Encode, Decode, Width;
  }

  lemma Pieces(last: seq<bv8>, first: seq<bv8>, rest: seq<bv8>)
    ensures last + first + rest == last + (first + rest)
  {
  }

  // ---------- backslashes and quotes ----------

  lemma {:induction false} SlashText(n: nat, k: nat)
    ensures Wtf8(Slashes(k)) == Slash8s(k) && Trail(n, Slashes(k)) == n + k
    decreases k
  {
    if k > 0 {
      var t := Slashes(k);
      assert t[1..] == Slashes(k - 1);
      SlashSame(SLASH16);
      SlashText(n + 1, k - 1);
      SlashText(0, k - 1);
      EncodeSlash();
      assert Decode(t) == SLASH;
      assert [SLASH8] + Slash8s(k - 1) == Slash8s(k);
    }
  }

  /** A run of backslashes prints itself, for the time being. */
  lemma RunSlashes(b: nat, done: seq<seq<bv8>>, last: seq<bv8>, k: nat, rest: Units)
    requires (b == 1 || b == 2) && NoLow(rest)
    ensures Inside(b, done, last + Slash8s(k), k).Valid()
    ensures Run(State(b, 0, done + [last]), Slashes(k) + rest) == Run(Inside(b, done, last + Slash8s(k), k), rest)
  {
    hide Run, Trail, Wtf8;
    SlashText(0, k);
    RunText(b, done, last, 0, Slashes(k), rest);
  }

  lemma Halves(last: seq<bv8>, n: nat, k: nat)
    ensures last + Slash8s(n + k) == (last + Slash8s(n)) + Slash8s(k)
  {
  }

  /** A quote takes half of the backslashes back; it starts or ends a quoted part, or is printed. */
  lemma FeedQuote(b: nat, done: seq<seq<bv8>>, last: seq<bv8>, n: nat)
    requires b == 1 || b == 2
    ensures Feed(Inside(b, done, last + Slash8s(2 * n), 2 * n), QUOTE)
      == State(if b == 1 then 2 else 5, 0, done + [last + Slash8s(n)])
    ensures Feed(Inside(b, done, last + Slash8s(2 * n + 1), 2 * n + 1), QUOTE)
      == State(b, 0, done + [last + (Slash8s(n) + [QUOTE8])])
  {
    hide Encode;
    var body := last + Slash8s(n);
    QuoteEncoded();
    Halves(last, n, n);
    Halves(last, n, n + 1);
    assert body + [QUOTE8] == last + (Slash8s(n) + [QUOTE8]);
    if n > 0 {
      RetractLast(done, body, n, b + 2, 2 * n);
      assert Feed(State(b, 0, done + [body]), QUOTE) == State(if b == 1 then 2 else 5, 0, done + [body]);
    } else {
      assert last + Slash8s(0) == last;
    }
    RetractLast(done, body, n + 1, b + 2, 2 * n + 1);
    EmitLast(done, body, QUOTE, b, 0);
  }

  lemma QuoteEncoded()
    ensures Encode(QUOTE) == [QUOTE8]
  {
  }

  lemma RunQuote(b: nat, done: seq<seq<bv8>>, last: seq<bv8>, k: nat, rest: Units)
    requires b == 1 || b == 2
    ensures var st := Inside(b, done, last + Slash8s(k), k);
      st.Valid() && Run(State(b, 0, done + [last]), Slashes(k) + ([QUOTE16] + rest)) == Run(Feed(st, QUOTE), rest)
  {
    hide Run, Feed, Slash8s;
    SlashSame(QUOTE16);
    RunSlashes(b, done, last, k, [QUOTE16] + rest);
    RunOne(Inside(b, done, last + Slash8s(k), k), QUOTE16, rest);
  }

  // ---------- what may come next ----------

  /** Outside the quotes again, or after backslashes that no quote follows, a token goes on as if nothing had been. */
  lemma GoesOn(st: State, rest: Units)
    requires st.Valid() && (st.state == 5 || st.state == 3)
    requires rest != [] ==> rest[0] != QUOTE16 && (st.state == 3 ==> rest[0] != SLASH16)
    ensures RunArgs(st, rest) == RunArgs(State(1, 0, st.args), rest)
  {
    if rest == [] {
      RunEmpty(st);
      RunEmpty(State(1, 0, st.args));
    } else {
      hide Run, Feed, Decode, Width;
      OrdinaryStart(rest);
      var c := Decode(rest);
      PushedFeed(st, c);
      RunStep(st, rest);
      RunStep(State(1, 0, st.args), rest);
    }
  }

  lemma OrdinaryStart(rest: Units)
    requires rest != []
    ensures rest[0] != QUOTE16 ==> Decode(rest) != QUOTE
    ensures rest[0] != SLASH16 ==> Decode(rest) != SLASH
    ensures Blank(Decode(rest)) <==> BlankUnit(rest[0]) && Width(rest) == 1
    ensures BlankUnit(rest[0]) ==> Width(rest) == 1
  {
    hide High, Low, Combine, BlankUnit;
    BlankSame(rest[0]);
    SlashSame(rest[0]);
  }

  function StateOf(quoted: bool, done: seq<seq<bv8>>, last: seq<bv8>): State {
    State(if quoted then 2 else 1, 0, done + [last])
  }

  /** Nothing that would change the meaning of the piece before it. */
  predicate Separate(quoted: bool, p: Piece, rest: Units) {
    match p
    case Text(units) => NoLow(rest) && (Trail(0, units) > 0 ==> !quoted && (rest != [] ==> rest[0] != QUOTE16 && rest[0] != SLASH16))
    case Toggle(_) => quoted ==> rest != [] ==> rest[0] != QUOTE16
    case _ => true
  }

  lemma TextRuns(quoted: bool, t: Units, done: seq<seq<bv8>>, last: seq<bv8>, rest: Units)
    requires Fits(quoted, Text(t)) && Separate(quoted, Text(t), rest)
    ensures RunArgs(StateOf(quoted, done, last), t + rest) == RunArgs(StateOf(quoted, done, last + Wtf8(t)), rest)
  {
    hide Run, Wtf8, Trail, BlankUnit;
    var b := if quoted then 2 else 1;
    RunText(b, done, last, 0, t, rest);
    var n := Trail(0, t);
    if n > 0 {
      GoesOn(Inside(b, done, last + Wtf8(t), n), rest);
    }
  }

  /** A piece prints what it stands for, and leaves the token inside or outside quotes. */
  lemma PieceRuns(quoted: bool, p: Piece, done: seq<seq<bv8>>, last: seq<bv8>, rest: Units)
    requires Fits(quoted, p) && Separate(quoted, p, rest)
    ensures RunArgs(StateOf(quoted, done, last), Spell(p) + rest)
      == RunArgs(StateOf(Afterwards(quoted, p), done, last + Prints(p)), rest)
  {
    hide Run, Feed, Wtf8, Trail, Slashes, Slash8s, BlankUnit;
    var b := if quoted then 2 else 1;
    match p
    case Text(t) =>
      TextRuns(quoted, t, done, last, rest);
    case Literal(n) =>
      assert Spell(p) + rest == Slashes(2 * n + 1) + ([QUOTE16] + rest);
      RunQuote(b, done, last, 2 * n + 1, rest);
      FeedQuote(b, done, last, n);
    case Toggle(n) =>
      assert Spell(p) + rest == Slashes(2 * n) + ([QUOTE16] + rest);
      RunQuote(b, done, last, 2 * n, rest);
      FeedQuote(b, done, last, n);
      if quoted {
        GoesOn(State(5, 0, done + [last + Slash8s(n)]), rest);
      }
    case Doubled(n) =>
      DoubledRuns(n, done, last, rest);
  }

  lemma DoubledRuns(n: nat, done: seq<seq<bv8>>, last: seq<bv8>, rest: Units)
    ensures RunArgs(StateOf(true, done, last), Spell(Doubled(n)) + rest)
      == RunArgs(StateOf(false, done, last + Prints(Doubled(n))), rest)
  {
    hide Run, Slashes, Slash8s, Encode;
    assert Spell(Doubled(n)) + rest == Slashes(2 * n) + ([QUOTE16] + ([QUOTE16] + rest));
    RunQuote(2, done, last, 2 * n, [QUOTE16] + rest);
    FeedQuote(2, done, last, n);
    SlashSame(QUOTE16);
    var body := last + Slash8s(n);
    RunOne(State(5, 0, done + [body]), QUOTE16, rest);
    EmitLast(done, body, QUOTE, 5, 0);
    QuoteEncoded();
    assert body + [QUOTE8] == last + (Slash8s(n) + [QUOTE8]);
  }

  // ---------- whole tokens ----------

  lemma SpellStarts(quoted: bool, p: Piece)
    requires Fits(quoted, p)
    ensures Spell(p) != []
    ensures !p.Text? ==> Spell(p)[0] == if p == Toggle(0) || p == Doubled(0) then QUOTE16 else SLASH16
    ensures p.Text? ==> Spell(p)[0] in p.units
  {
  }

  lemma {:induction false} TrailEnds(n: nat, t: Units)
    requires t != []
    ensures t[|t| - 1] != SLASH16 ==> Trail(n, t) == 0
    decreases |t|
  {
    if |t| > 1 {
      TrailEnds(if t[0] == SLASH16 then n + 1 else 0, t[1..]);
    }
  }

  predicate EndsToken(rest: Units) { rest != [] ==> BlankUnit(rest[0]) }

  lemma BlankSeparates(u: bv16)
    requires BlankUnit(u)
    ensures u != QUOTE16 && u != SLASH16 && !Low(u)
  {
  }

  /** A well-formed token's next piece, or its end, does not change the meaning of a piece. */
  lemma PieceSeparate(quoted: bool, ps: seq<Piece>, rest: Units)
    requires ps != [] && WellFormed(quoted, ps) && EndsToken(rest) && (Open(quoted, ps) ==> rest == [])
    ensures Separate(quoted, ps[0], SpellAll(ps[1..]) + rest)
  {
    hide Trail, BlankUnit, Low;
    var p, next := ps[0], SpellAll(ps[1..]) + rest;
    if p.Text? {
      TrailEnds(0, p.units);
    }
    if |ps| == 1 {
      assert next == rest;
      if rest != [] {
        BlankSeparates(rest[0]);
      }
    } else {
      var q := ps[1];
      SpellStarts(Afterwards(quoted, p), q);
      assert next[0] == Spell(q)[0];
      SlashSame(SLASH16);
      SlashSame(QUOTE16);
    }
  }

  lemma {:induction false} TokenRuns(quoted: bool, ps: seq<Piece>, done: seq<seq<bv8>>, last: seq<bv8>, rest: Units)
    requires WellFormed(quoted, ps) && EndsToken(rest) && (Open(quoted, ps) ==> rest == [])
    ensures RunArgs(StateOf(quoted, done, last), SpellAll(ps) + rest)
      == RunArgs(StateOf(Open(quoted, ps), done, last + PrintAll(ps)), rest)
    decreases |ps|
  {
    if ps == [] {
      hide Run;
      assert SpellAll(ps) + rest == rest && last + PrintAll(ps) == last;
    } else {
      hide RunArgs, StateOf, Spell, Prints, Fits, MayFollow, Afterwards, Separate;
      var p := ps[0];
      var next := SpellAll(ps[1..]) + rest;
      assert SpellAll(ps) + rest == Spell(p) + next;
      PieceSeparate(quoted, ps, rest);
      PieceRuns(quoted, p, done, last, next);
      TokenRuns(Afterwards(quoted, p), ps[1..], done, last + Prints(p), rest);
      Pieces(last, Prints(p), PrintAll(ps[1..]));
    }
  }

  /** A token starts with its first character. */
  lemma TokenStarts(done: seq<seq<bv8>>, x: Units)
    requires done != [] && x != [] && !BlankUnit(x[0])
    ensures RunArgs(State(0, 0, done), x) == RunArgs(State(1, 0, done + [[]]), x)
  {
    hide Run, Decode, Width, Encode, BlankUnit;
    OrdinaryStart(x);
    RunStep(State(0, 0, done), x);
    RunStep(State(1, 0, done + [[]]), x);
  }

  // ---------- blanks ----------

  /** Between arguments, or in one that a blank ends. */
  predicate MayEnd(state: nat) { state == 0 || state == 1 || state == 7 }

  lemma {:induction false} RunBlanks(state: nat, done: seq<seq<bv8>>, blanks: Units, rest: Units)
    requires done != [] && MayEnd(state) && Blanks(blanks) && blanks != []
    ensures RunArgs(State(state, 0, done), blanks + rest) == RunArgs(State(0, 0, done), rest)
    decreases |blanks|
  {
    hide Run, BlankUnit, High;
    var more := blanks[1..] + rest;
    assert blanks + rest == [blanks[0]] + more;
    BlankSame(blanks[0]);
    RunOne(State(state, 0, done), blanks[0], more);
    if |blanks| > 1 {
      RunBlanks(0, done, blanks[1..], rest);
    } else {
      assert more == rest;
    }
  }

  // ---------- a whole line ----------

  lemma ItemRuns(state: nat, done: seq<seq<bv8>>, item: Item, more: Units)
    requires done != [] && MayEnd(state) && GoodItem(item)
    requires EndsToken(more) && (Open(false, item.pieces) ==> more == [])
    ensures RunArgs(State(state, 0, done), item.blanks + (SpellAll(item.pieces) + more))
      == RunArgs(StateOf(Open(false, item.pieces), done, PrintAll(item.pieces)), more)
  {
    hide Run, BlankUnit, SpellAll, PrintAll, WellFormed, Open;
    var x := SpellAll(item.pieces) + more;
    RunBlanks(state, done, item.blanks, x);
    ItemStarts(item.pieces, more);
    TokenStarts(done, x);
    TokenRuns(false, item.pieces, done, [], more);
    assert [] + PrintAll(item.pieces) == PrintAll(item.pieces);
  }

  lemma ItemStarts(ps: seq<Piece>, more: Units)
    requires ps != [] && WellFormed(false, ps)
    ensures var x := SpellAll(ps) + more; x != [] && !BlankUnit(x[0])
  {
    hide BlankUnit;
    SpellStarts(false, ps[0]);
    SlashIsNoBlank();
    assert (SpellAll(ps) + more)[0] == Spell(ps[0])[0];
  }

  lemma SlashIsNoBlank()
    ensures !BlankUnit(SLASH16) && !BlankUnit(QUOTE16)
  {
  }

  lemma {:induction false} ItemsRun(state: nat, done: seq<seq<bv8>>, items: seq<Item>, tail: Units)
    requires done != [] && MayEnd(state) && GoodLine(items, tail)
    ensures RunArgs(State(state, 0, done), ItemsText(items, tail)) == done + Printed(items)
    decreases |items|
  {
    hide Run, BlankUnit, SpellAll, PrintAll, WellFormed, Open;
    if items == [] {
      assert done + [] == done;
      if tail == [] {
        RunEmpty(State(state, 0, done));
      } else {
        assert tail + [] == tail;
        RunBlanks(state, done, tail, []);
        RunEmpty(State(0, 0, done));
      }
    } else {
      hide Blanks;
      var item, rest := items[0], items[1..];
      var more := ItemsText(rest, tail);
      LineTail(items, tail);
      ItemRuns(state, done, item, more);
      var printed := PrintAll(item.pieces);
      if Open(false, item.pieces) {
        RunEmpty(StateOf(true, done, printed));
        assert Printed(rest) == [];
      } else {
        ItemsRun(1, done + [printed], rest, tail);
      }
      assert done + [printed] + Printed(rest) == done + ([printed] + Printed(rest));
    }
  }

  lemma LineTail(items: seq<Item>, tail: Units)
    requires items != [] && GoodLine(items, tail)
    ensures GoodItem(items[0]) && GoodLine(items[1..], tail)
    ensures EndsToken(ItemsText(items[1..], tail))
    ensures Open(false, items[0].pieces) ==> items[1..] == [] && ItemsText(items[1..], tail) == []
  {
    hide BlankUnit, WellFormed, Open, SpellAll;
    var rest := items[1..];
    assert forall i :: 0 <= i < |rest| ==> rest[i] == items[i + 1];
    if rest != [] {
      assert ItemsText(rest, tail)[0] == rest[0].blanks[0];
    }
  }

  lemma NameRuns(b: nat, name: Units, rest: Units)
    requires (b == 7 || b == 8) && (forall u :: u in name ==> OrdinaryUnit(b, u)) && NoLow(rest)
    ensures Run(State(b, 0, [[]]), name + rest) == Run(State(b, 0, [Wtf8(name)]), rest)
  {
    hide Run, Wtf8, OrdinaryUnit;
    RunText(b, [], [], 0, name, rest);
    assert [] + Wtf8(name) == Wtf8(name) && [] + [Wtf8(name)] == [Wtf8(name)];
    var none: seq<seq<bv8>>, first: seq<bv8> := [], [];
    assert none + [first] == [first];
  }

  /** An unquoted program name starts with its first character. */
  lemma BareStarts(x: Units)
    requires x != [] && !BlankUnit(x[0]) && x[0] != QUOTE16
    ensures RunArgs(START, x) == RunArgs(State(7, 0, [[]]), x)
  {
    hide Run, Decode, Width, Encode, BlankUnit;
    OrdinaryStart(x);
    RunStep(START, x);
    RunStep(State(7, 0, [[]]), x);
  }

  lemma QuotedNameRuns(name: Units, rest: Units)
    requires QUOTE16 !in name
    ensures RunArgs(START, [QUOTE16] + name + [QUOTE16] + rest) == RunArgs(State(0, 0, [Wtf8(name)]), rest)
  {
    hide Run, Wtf8;
    SlashSame(QUOTE16);
    assert [QUOTE16] + name + [QUOTE16] + rest == [QUOTE16] + (name + ([QUOTE16] + rest));
    RunOne(START, QUOTE16, name + ([QUOTE16] + rest));
    NameRuns(8, name, [QUOTE16] + rest);
    RunOne(State(8, 0, [Wtf8(name)]), QUOTE16, rest);
  }

  /**
   * A program name, bare or quoted, and tokens of any pieces behind blanks: the line splits into exactly what the name
   * and the pieces of each token print.
   */
  lemma LineSplits(program: Program, items: seq<Item>, tail: Units)
    requires GoodProgram(program) && GoodLine(items, tail)
    ensures Split(ProgramText(program) + ItemsText(items, tail)) == [Wtf8(program.name)] + Printed(items)
  {
    hide Run, Wtf8, BlankUnit, ItemsText;
    var rest := ItemsText(items, tail);
    RestStarts(items, tail);
    if program.Bare? {
      hide GoodLine;
      BareStarts(program.name + rest);
      NameRuns(7, program.name, rest);
      ItemsRun(7, [Wtf8(program.name)], items, tail);
    } else {
      hide GoodLine;
      QuotedNameRuns(program.name, rest);
      ItemsRun(0, [Wtf8(program.name)], items, tail);
    }
  }

  lemma RestStarts(items: seq<Item>, tail: Units)
    requires GoodLine(items, tail)
    ensures NoLow(ItemsText(items, tail))
  {
    hide BlankUnit, Low, WellFormed, Open, SpellAll;
    var rest := ItemsText(items, tail);
    if rest != [] {
      if items != [] {
        assert rest[0] == items[0].blanks[0];
      }
      BlankSeparates(rest[0]);
    }
  }

  // ---------- words ----------

  function WordItems(words: seq<Units>, blanks: seq<Units>): seq<Item>
    requires |blanks| == |words|
  {
    seq(|words|, i requires 0 <= i < |words| => Item(blanks[i], [Text(words[i])]))
  }

  function WordBodies(words: seq<Units>): seq<seq<bv8>> {
    seq(|words|, i requires 0 <= i < |words| => Wtf8(words[i]))
  }

  /** Words without blanks and quotes, whatever backslashes and surrogates are in them, are the arguments. */
  lemma WordsSplit(program: Units, words: seq<Units>, blanks: seq<Units>, tail: Units)
    requires GoodProgram(Bare(program)) && |blanks| == |words| && Blanks(tail)
    requires forall i :: 0 <= i < |words| ==> blanks[i] != [] && Blanks(blanks[i])
    requires forall i :: 0 <= i < |words| ==> Fits(false, Text(words[i]))
    ensures Split(program + ItemsText(WordItems(words, blanks), tail)) == [Wtf8(program)] + WordBodies(words)
  {
    hide Split, Wtf8, Blanks, ItemsText;
    var items := WordItems(words, blanks);
    forall i | 0 <= i < |items| ensures GoodItem(items[i]) && !Open(false, items[i].pieces) {
      assert items[i] == Item(blanks[i], [Text(words[i])]);
      WordFits(words[i]);
    }
    LineSplits(Bare(program), items, tail);
    WordsPrinted(words, blanks);
  }

  lemma WordFits(word: Units)
    requires Fits(false, Text(word))
    ensures WellFormed(false, [Text(word)]) && !Open(false, [Text(word)])
  {
    assert [Text(word)][1..] == [];
  }

  lemma {:induction false} WordsPrinted(words: seq<Units>, blanks: seq<Units>)
    requires |blanks| == |words|
    ensures Printed(WordItems(words, blanks)) == WordBodies(words)
    decreases |words|
  {
    hide Wtf8;
    if words != [] {
      var items := WordItems(words, blanks);
      assert items[1..] == WordItems(words[1..], blanks[1..]);
      WordsPrinted(words[1..], blanks[1..]);
      var one := [Text(words[0])];
      assert one[1..] == [] && PrintAll(one) == Wtf8(words[0]) + [] == Wtf8(words[0]);
      assert WordBodies(words) == [Wtf8(words[0])] + WordBodies(words[1..]);
    }
  }

  // ---------- quoting, and that splitting undoes it ----------

  /** An argument's body inside quotes, with `n` backslashes just before it: a run of backslashes
      is doubled before a quote, which gets one more, and before the closing quote. */
  function Escaped(a: Units, n: nat): Units {
    if a == [] then Slashes(n) + [QUOTE16]
    else if a[0] == SLASH16 then [SLASH16] + Escaped(a[1..], n + 1)
    else if a[0] == QUOTE16 then Slashes(n + 1) + [QUOTE16] + Escaped(a[1..], 0)
    else [a[0]] + Escaped(a[1..], 0)
  }

  function Quoted(a: Units): Units { [QUOTE16] + Escaped(a, 0) }

  function Arguments(args: seq<Units>): Units {
    if args == [] then [] else [SPACE16] + Quoted(args[0]) + Arguments(args[1..])
  }

  /** A command line for a program name and its arguments. */
  function Command(program: Units, args: seq<Units>): Units {
    [QUOTE16] + program + [QUOTE16] + Arguments(args)
  }

  function Bodies(args: seq<Units>): seq<seq<bv8>> {
    if args == [] then [] else [Wtf8(args[0])] + Bodies(args[1..])
  }

  /** A text without quotes, backslashes, and then a quote and the rest, or the end. */
  datatype Head = Head(text: Units, slashes: nat, quote: bool, rest: Units)

  function HeadOf(a: Units): (h: Head)
    ensures QUOTE16 !in h.text && (h.text != [] ==> h.text[|h.text| - 1] != SLASH16)
    ensures h.quote ==> |h.rest| < |a|
  {
    if a == [] then Head([], 0, false, [])
    else if a[0] == QUOTE16 then Head([], 0, true, a[1..])
    else
      var h := HeadOf(a[1..]);
      if a[0] == SLASH16 && h.text == [] then h.(slashes := h.slashes + 1) else h.(text := [a[0]] + h.text)
  }

  function HeadRest(h: Head): Units { if h.quote then [QUOTE16] + h.rest else [] }

  lemma HeadStep(a: Units)
    requires a != [] && a[0] != QUOTE16
    ensures var h := HeadOf(a[1..]);
      HeadOf(a) == if a[0] == SLASH16 && h.text == [] then h.(slashes := h.slashes + 1) else h.(text := [a[0]] + h.text)
  {
  }

  lemma HeadEnds(a: Units)
    requires a == [] || a[0] == QUOTE16
    ensures a == HeadText(HeadOf(a))
  {
    assert Slashes(0) == [];
  }

  lemma SlashAhead(n: nat, rest: Units)
    ensures [SLASH16] + (Slashes(n) + rest) == Slashes(n + 1) + rest && Slashes(0) + rest == rest
  {
    assert Slashes(n + 1) == [SLASH16] + Slashes(n);
  }

  function HeadText(h: Head): Units { h.text + (Slashes(h.slashes) + HeadRest(h)) }

  lemma {:induction false} HeadWhole(a: Units)
    ensures a == HeadText(HeadOf(a))
  {
    hide HeadOf, HeadRest, HeadText, Slashes;
    if a == [] || a[0] == QUOTE16 {
      HeadEnds(a);
    } else {
      HeadWhole(a[1..]);
      HeadStep(a);
      HeadGrows(a, HeadOf(a[1..]));
    }
  }

  lemma HeadGrows(a: Units, h: Head)
    requires a != [] && a[1..] == HeadText(h)
    ensures a[0] == SLASH16 && h.text == [] ==> a == HeadText(h.(slashes := h.slashes + 1))
    ensures a == HeadText(h.(text := [a[0]] + h.text))
  {
    hide HeadRest, Slashes;
    var tail := Slashes(h.slashes) + HeadRest(h);
    assert a == [a[0]] + a[1..];
    assert [a[0]] + (h.text + tail) == ([a[0]] + h.text) + tail;
    RestSame(h, h.(text := [a[0]] + h.text));
    if a[0] == SLASH16 && h.text == [] {
      SlashAhead(h.slashes, HeadRest(h));
      RestSame(h, h.(slashes := h.slashes + 1));
      assert [] + tail == tail;
    }
  }

  lemma RestSame(h: Head, g: Head)
    requires h.quote == g.quote && h.rest == g.rest
    ensures HeadRest(h) == HeadRest(g)
  {
  }

  /** The pieces of a quoted argument after its first quote. */
  function QuotedPieces(a: Units): seq<Piece>
    decreases |a|
  {
    var h := HeadOf(a);
    (if h.text == [] then [] else [Text(h.text)])
    + if h.quote then [Literal(h.slashes)] + QuotedPieces(h.rest) else [Toggle(h.slashes)]
  }

  lemma EscapedNext(c: bv16, s: Units, n: nat)
    requires c != QUOTE16
    ensures Escaped([c] + s, n) == [c] + Escaped(s, if c == SLASH16 then n + 1 else 0)
  {
    assert ([c] + s)[1..] == s;
  }

  /** Text without quotes is escaped as it is, and its last backslashes wait for what follows. */
  lemma {:induction false} EscapedText(t: Units, rest: Units, n: nat)
    requires QUOTE16 !in t
    ensures Escaped(t + rest, n) == t + Escaped(rest, Trail(n, t))
    decreases |t|
  {
    if t == [] {
      assert t + rest == rest;
    } else {
      var m := if t[0] == SLASH16 then n + 1 else 0;
      assert t[0] in t;
      EscapedText(t[1..], rest, m);
      EscapedNext(t[0], t[1..] + rest, n);
      hide Escaped;
      assert t + rest == [t[0]] + (t[1..] + rest) && t == [t[0]] + t[1..];
      assert [t[0]] + (t[1..] + Escaped(rest, Trail(m, t[1..]))) == t + Escaped(rest, Trail(m, t[1..]));
    }
  }

  lemma {:induction false} Wtf8Joins(t: Units, rest: Units)
    requires NoLow(rest)
    ensures Wtf8(t + rest) == Wtf8(t) + Wtf8(rest)
    decreases |t|
  {
    hide Decode, Width, Encode, NoLow;
    if t == [] {
      assert t + rest == rest;
    } else {
      DecodeBefore(t, rest);
      Wtf8Joins(t[Width(t)..], rest);
      Pieces(Encode(Decode(t)), Wtf8(t[Width(t)..]), Wtf8(rest));
    }
  }

  /** Text and backslashes before a quote or the end: escaping adds as many backslashes. */
  lemma HeadEscaped(t: Units, n: nat, x: Units)
    requires QUOTE16 !in t && (t != [] ==> t[|t| - 1] != SLASH16)
    ensures Escaped(t + (Slashes(n) + x), 0) == t + (Slashes(n) + Escaped(x, n))
  {
    hide Escaped, Trail;
    EscapedText(t, Slashes(n) + x, 0);
    if t == [] {
      TrailNone();
    } else {
      TrailEnds(0, t);
    }
    EscapedText(Slashes(n), x, 0);
    SlashText(0, n);
  }

  lemma TrailNone()
    ensures Trail(0, []) == 0
  {
  }

  lemma HeadPrinted(t: Units, n: nat, x: Units)
    requires NoLow(x)
    ensures Wtf8(t + (Slashes(n) + x)) == Wtf8(t) + (Slash8s(n) + Wtf8(x))
  {
    hide Wtf8, Trail;
    SlashText(0, n);
    SlashSame(SLASH16);
    Wtf8Joins(Slashes(n), x);
    Wtf8Joins(t, Slashes(n) + x);
  }

  lemma EscapedEnd(n: nat)
    ensures Escaped([], n) == Slashes(n) + [QUOTE16]
  {
  }

  lemma EscapedQuote(rest: Units, n: nat)
    ensures Escaped([QUOTE16] + rest, n) == Slashes(n + 1) + [QUOTE16] + Escaped(rest, 0)
  {
    assert ([QUOTE16] + rest)[1..] == rest;
  }

  lemma Wtf8Quote(rest: Units)
    ensures Wtf8([QUOTE16] + rest) == [QUOTE8] + Wtf8(rest)
  {
    hide Encode;
    SlashSame(QUOTE16);
    QuoteEncoded();
    assert ([QUOTE16] + rest)[1..] == rest;
  }

  /** A quoted argument is written with its pieces, which print the argument. */
  lemma {:induction false} QuotedIsPieces(a: Units)
    ensures SpellAll(QuotedPieces(a)) == Escaped(a, 0) && PrintAll(QuotedPieces(a)) == Wtf8(a)
    ensures WellFormed(true, QuotedPieces(a)) && !Open(true, QuotedPieces(a))
    ensures QuotedPieces(a) != []
    decreases |a|
  {
    hide Escaped, Wtf8, Trail, WellFormed, SpellAll, PrintAll, Open, Slashes, Slash8s;
    var h := HeadOf(a);
    var x := HeadRest(h);
    HeadWhole(a);
    var tail := if h.quote then [Literal(h.slashes)] + QuotedPieces(h.rest) else [Toggle(h.slashes)];
    SlashSame(QUOTE16);
    HeadEscaped(h.text, h.slashes, x);
    HeadPrinted(h.text, h.slashes, x);
    if h.quote {
      QuotedIsPieces(h.rest);
      LiteralFirst(h.slashes, h.rest, QuotedPieces(h.rest));
    } else {
      ToggleOnly(h.slashes);
    }
    if h.text != [] {
      TextFirst(h.text, tail);
    } else {
      Wtf8Nothing();
      assert [] + tail == tail;
    }
  }

  lemma Wtf8Nothing()
    ensures Wtf8([]) == []
  {
  }

  lemma ToggleOnly(n: nat)
    ensures WellFormed(true, [Toggle(n)]) && !Open(true, [Toggle(n)])
    ensures SpellAll([Toggle(n)]) == Slashes(n) + Escaped([], n)
    ensures PrintAll([Toggle(n)]) == Slash8s(n) + Wtf8([])
  {
    assert [Toggle(n)][1..] == [];
    EscapedEnd(n);
    assert Slashes(2 * n) + [QUOTE16] + [] == Slashes(n) + (Slashes(n) + [QUOTE16]);
  }

  lemma LiteralFirst(n: nat, rest: Units, ps: seq<Piece>)
    requires WellFormed(true, ps) && !Open(true, ps) && SpellAll(ps) == Escaped(rest, 0) && PrintAll(ps) == Wtf8(rest)
    ensures WellFormed(true, [Literal(n)] + ps) && !Open(true, [Literal(n)] + ps)
    ensures SpellAll([Literal(n)] + ps) == Slashes(n) + Escaped([QUOTE16] + rest, n)
    ensures PrintAll([Literal(n)] + ps) == Slash8s(n) + Wtf8([QUOTE16] + rest)
  {
    hide *;
    LiteralFits(n, ps);
    EscapedQuote(rest, n);
    Wtf8Quote(rest);
    SlashesSplit(n, n + 1);
    assert Slashes(n) + Slashes(n + 1) + [QUOTE16] + Escaped(rest, 0) == Slashes(n) + (Slashes(n + 1) + [QUOTE16] + Escaped(rest, 0));
    assert Slash8s(n) + [QUOTE8] + Wtf8(rest) == Slash8s(n) + ([QUOTE8] + Wtf8(rest));
  }

  lemma SlashesSplit(m: nat, n: nat)
    ensures Slashes(m + n) == Slashes(m) + Slashes(n)
  {
  }

  lemma LiteralFits(n: nat, ps: seq<Piece>)
    requires WellFormed(true, ps) && !Open(true, ps)
    ensures WellFormed(true, [Literal(n)] + ps) && !Open(true, [Literal(n)] + ps)
    ensures SpellAll([Literal(n)] + ps) == Slashes(2 * n + 1) + [QUOTE16] + SpellAll(ps)
    ensures PrintAll([Literal(n)] + ps) == Slash8s(n) + [QUOTE8] + PrintAll(ps)
  {
    hide Slashes, Slash8s;
    assert ([Literal(n)] + ps)[1..] == ps;
  }

  lemma TextFirst(t: Units, ps: seq<Piece>)
    requires Fits(true, Text(t)) && ps != [] && !ps[0].Text? && WellFormed(true, ps) && !Open(true, ps)
    ensures WellFormed(true, [Text(t)] + ps) && !Open(true, [Text(t)] + ps)
    ensures SpellAll([Text(t)] + ps) == t + SpellAll(ps) && PrintAll([Text(t)] + ps) == Wtf8(t) + PrintAll(ps)
  {
    hide Wtf8;
    assert ([Text(t)] + ps)[1..] == ps;
  }

  function QuotedItems(args: seq<Units>): seq<Item> {
    if args == [] then [] else [Item([SPACE16], [Toggle(0)] + QuotedPieces(args[0]))] + QuotedItems(args[1..])
  }

  lemma QuotedItem(arg: Units)
    ensures var item := Item([SPACE16], [Toggle(0)] + QuotedPieces(arg));
      && GoodItem(item) && !Open(false, item.pieces)
      && SpellAll(item.pieces) == Quoted(arg) && PrintAll(item.pieces) == Wtf8(arg)
  {
    hide Escaped, Wtf8, QuotedPieces;
    QuotedIsPieces(arg);
    var ps := [Toggle(0)] + QuotedPieces(arg);
    assert ps[1..] == QuotedPieces(arg);
    assert Slashes(0) + [QUOTE16] == [QUOTE16] && Slash8s(0) + Wtf8(arg) == Wtf8(arg);
  }

  lemma {:induction false} QuotedLine(args: seq<Units>)
    ensures GoodLine(QuotedItems(args), []) && ItemsText(QuotedItems(args), []) == Arguments(args)
    ensures Printed(QuotedItems(args)) == Bodies(args)
    decreases |args|
  {
    hide Quoted, Wtf8, QuotedPieces, SpellAll, PrintAll, GoodItem, Open;
    if args != [] {
      QuotedItem(args[0]);
      QuotedLine(args[1..]);
      var items := QuotedItems(args);
      assert items[1..] == QuotedItems(args[1..]);
      assert forall i :: 0 < i < |items| ==> items[i] == items[1..][i - 1];
      assert [SPACE16] + (Quoted(args[0]) + Arguments(args[1..])) == [SPACE16] + Quoted(args[0]) + Arguments(args[1..]);
    }
  }

  /** Splitting is a left inverse of quoting. */
  lemma SplitUndoesQuoting(program: Units, args: seq<Units>)
    requires QUOTE16 !in program
    ensures Split(Command(program, args)) == [Wtf8(program)] + Bodies(args)
  {
    hide Split, Arguments, Wtf8, Bodies, GoodLine, ItemsText, QuotedItems;
    QuotedLine(args);
    LineSplits(InQuotes(program), QuotedItems(args), []);
  }
}
