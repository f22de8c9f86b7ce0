/** What a field's quoting means: plain and quoted parts of tokens, with every byte that is printed. */
module Quoting {
  import opened Bytes
  import opened Dequote

  /** A part of a token: as it is, in single quotes, or in double quotes. */
  datatype Piece = Plainly(text: Bytes) | Single(text: Bytes) | Double(text: Bytes)

  predicate NoCodes(s: Bytes) { forall i :: 0 <= i < |s| ==> !PathCode(s[i]) }

  predicate Fits(p: Piece) {
    && NoCodes(p.text)
    && match p
       case Plainly(s) =>
         s != [] && forall i :: 0 <= i < |s| ==> !Whitespace(s[i]) && s[i] != SINGLE && s[i] != DOUBLE
       case Single(s) => SINGLE !in s
       case Double(s) => DOUBLE !in s
  }

  function Spell(p: Piece): Bytes {
    match p
    case Plainly(s) => s
    case Single(s) => [SINGLE] + s + [SINGLE]
    case Double(s) => [DOUBLE] + s + [DOUBLE]
  }

  /** The text, with every kind of white space read as a space. */
  function Meaning(s: Bytes): (r: Bytes)
    ensures |r| == |s|
  {
    seq(|s|, i requires 0 <= i < |s| => if Whitespace(s[i]) then SPACE else s[i])
  }

  /** The text for a shell: a backslash before every space and every byte that means something to it. */
  function Shell(s: Bytes): Bytes {
    if s == [] then [] else (if s[0] == SPACE || s[0] in META then [BACKSLASH, s[0]] else [s[0]]) + Shell(s[1..])
  }

  function SpellAll(ps: seq<Piece>): Bytes {
    if ps == [] then [] else Spell(ps[0]) + SpellAll(ps[1..])
  }

  function MeaningAll(ps: seq<Piece>): Bytes {
    if ps == [] then [] else Meaning(ps[0].text) + MeaningAll(ps[1..])
  }

  // ---------- one byte ----------

  /** The context a part is read in, and the byte that ends it. */
  predicate Reads(q: Quote, c: u8) {
    && !PathCode(c)
    && match q
       case Unquoted => !Whitespace(c) && c != SINGLE && c != DOUBLE
       case InSingle => c != SINGLE
       case InDouble(escaped) => !escaped && c != DOUBLE
  }

  function Escape(c: u8): Bytes { if c == SPACE || c in META then [BACKSLASH, c] else [c] }

  lemma TakeReads(q: Quote, c: u8)
    requires Reads(q, c)
    ensures Take(q, c) == Go(q, Escape(if Whitespace(c) then SPACE else c))
  {
    NoCode(c);
    MetaHas();
    hide META;
  }

  lemma NoCode(c: u8)
    requires !PathCode(c)
    ensures PathDecode(c) == c && PathDecode(SPACE) == SPACE
  {
  }

  lemma MetaHas()
    ensures SINGLE in META && DOUBLE in META && BACKSLASH in META && SPACE !in META
  {
  }

  /** The bytes a backslash is put before, besides the space; dollar signs and parentheses are not among them. */
  lemma MetaBytes(c: u8)
    ensures c in META <==> c as char in "!#%&*<>?[]`{|}\\\"'"
    ensures c in META <==> Shell([c]) == [BACKSLASH, c] && c != SPACE
  {
    assert [c][1..] == [];
  }

  // ---------- one part ----------

  lemma ShellFirst(c: u8, s: Bytes)
    ensures Shell([c] + s) == Escape(c) + Shell(s)
  {
    assert ([c] + s)[1..] == s;
  }

  lemma MeaningFirst(s: Bytes)
    requires s != []
    ensures Meaning(s) == [if Whitespace(s[0]) then SPACE else s[0]] + Meaning(s[1..])
  {
  }

  /** Text that a context reads is printed for a shell, and the context stays. */
  lemma {:induction false} LexReads(q: Quote, s: Bytes, rest: Bytes)
    requires forall i :: 0 <= i < |s| ==> Reads(q, s[i])
    ensures Lex(s + rest, q) == Onto(Shell(Meaning(s)), Lex(rest, q))
    decreases |s|
  {
    if s == [] {
      assert s + rest == rest;
      OntoBoth([], [], Lex(rest, q));
    } else {
      hide Take, Lex, Shell, Meaning, Reads, Onto, Escape, Whitespace;
      assert Reads(q, s[0]);
      TakeReads(q, s[0]);
      assert (s + rest)[1..] == s[1..] + rest;
      LexStep(s + rest, q);
      LexReads(q, s[1..], rest);
      MeaningFirst(s);
      var c := if Whitespace(s[0]) then SPACE else s[0];
      ShellFirst(c, Meaning(s[1..]));
      OntoBoth(Escape(c), Shell(Meaning(s[1..])), Lex(rest, q));
    }
  }

  lemma TakeQuotes()
    ensures Take(Unquoted, SINGLE) == Go(InSingle, []) && Take(InSingle, SINGLE) == Go(Unquoted, [])
    ensures Take(Unquoted, DOUBLE) == Go(InDouble(false), []) && Take(InDouble(false), DOUBLE) == Go(Unquoted, [])
  {
  }

  /** A quote byte alone only changes the context. */
  lemma LexQuote(q: Quote, quote: u8, next: Quote, rest: Bytes)
    requires Take(q, quote) == Go(next, [])
    ensures Lex([quote] + rest, q) == Lex(rest, next)
  {
    hide Take;
    assert ([quote] + rest)[1..] == rest;
    LexStep([quote] + rest, q);
    OntoBoth([], [], Lex(rest, next));
  }

  lemma FitsReads(p: Piece)
    requires Fits(p)
    ensures forall i :: 0 <= i < |p.text| ==>
      Reads(if p.Plainly? then Unquoted else if p.Single? then InSingle else InDouble(false), p.text[i])
  {
  }

  lemma PieceReads(p: Piece, rest: Bytes)
    requires Fits(p)
    ensures Lex(Spell(p) + rest, Unquoted) == Onto(Shell(Meaning(p.text)), Lex(rest, Unquoted))
  {
    hide Take, Lex, Shell, Meaning, Onto;
    FitsReads(p);
    TakeQuotes();
    match p
    case Plainly(s) => LexReads(Unquoted, s, rest);
    case Single(s) =>
      assert Spell(p) + rest == [SINGLE] + (s + ([SINGLE] + rest));
      LexQuote(Unquoted, SINGLE, InSingle, s + ([SINGLE] + rest));
      LexReads(InSingle, s, [SINGLE] + rest);
      LexQuote(InSingle, SINGLE, Unquoted, rest);
    case Double(s) =>
      assert Spell(p) + rest == [DOUBLE] + (s + ([DOUBLE] + rest));
      LexQuote(Unquoted, DOUBLE, InDouble(false), s + ([DOUBLE] + rest));
      LexReads(InDouble(false), s, [DOUBLE] + rest);
      LexQuote(InDouble(false), DOUBLE, Unquoted, rest);
  }

  // ---------- one token ----------

  predicate AllFit(ps: seq<Piece>) { forall i :: 0 <= i < |ps| ==> Fits(ps[i]) }

  predicate Blanks(s: Bytes) { forall i :: 0 <= i < |s| ==> Whitespace(s[i]) }

  predicate EndsToken(rest: Bytes) { rest != [] ==> Whitespace(rest[0]) }

  lemma {:induction false} ShellJoins(a: Bytes, b: Bytes)
    ensures Shell(a + b) == Shell(a) + Shell(b)
    decreases |a|
  {
    hide Shell, Escape;
    if a == [] {
      ShellNothing();
      assert a + b == b && [] + Shell(b) == Shell(b);
    } else {
      var rest := a[1..];
      ShellJoins(rest, b);
      ShellFirst(a[0], rest);
      ShellFirst(a[0], rest + b);
      assert a == [a[0]] + rest;
      assert a + b == [a[0]] + (rest + b);
      Regrouped(Escape(a[0]), Shell(rest), Shell(b));
    }
  }

  lemma Regrouped(x: Bytes, y: Bytes, z: Bytes)
    ensures x + (y + z) == x + y + z
  {
  }

  /** Undoing the escapes gives back what is printed for a shell. */
  lemma {:induction false} ShellUnescapes(s: Bytes)
    ensures Unescaped(Shell(s)) == s
  {
    if s != [] {
      hide META, Shell, Unescaped;
      ShellUnescapes(s[1..]);
      ShellFirst(s[0], s[1..]);
      MetaHas();
      UnescapedStep(s[0], Escape(s[0]), Shell(s[1..]));
      assert s == [s[0]] + s[1..];
    } else {
      assert Unescaped([]) == [];
    }
  }

  /** At the end of the field or at white space a token ends. */
  lemma LexEnds(rest: Bytes)
    requires EndsToken(rest)
    ensures Lex(rest, Unquoted) == Token([], rest, true)
  {
    if rest != [] {
      MetaHas();
      NoCode(SPACE);
      hide META;
      assert Take(Unquoted, rest[0]) == Stop;
    }
  }

  lemma {:induction false} PiecesRead(ps: seq<Piece>, rest: Bytes)
    requires AllFit(ps)
    ensures Lex(SpellAll(ps) + rest, Unquoted) == Onto(Shell(MeaningAll(ps)), Lex(rest, Unquoted))
    decreases |ps|
  {
    hide Lex, Shell, Fits, Spell, Meaning;
    if ps == [] {
      hide Onto;
      assert SpellAll(ps) + rest == rest;
      ShellNothing();
      OntoBoth([], [], Lex(rest, Unquoted));
    } else {
      hide Onto;
      var next := SpellAll(ps[1..]) + rest;
      assert SpellAll(ps) + rest == Spell(ps[0]) + next;
      PieceReads(ps[0], next);
      PiecesRead(ps[1..], rest);
      ShellJoins(Meaning(ps[0].text), MeaningAll(ps[1..]));
      OntoBoth(Shell(Meaning(ps[0].text)), Shell(MeaningAll(ps[1..])), Lex(rest, Unquoted));
    }
  }

  lemma ShellNothing()
    ensures Shell([]) == []
  {
  }

  lemma {:induction false} BlanksSkipped(blanks: Bytes, s: Bytes)
    requires Blanks(blanks) && (s != [] ==> !Whitespace(s[0]))
    ensures AfterBlanks(blanks + s) == s
    decreases |blanks|
  {
    if blanks == [] {
      assert blanks + s == s;
    } else {
      assert (blanks + s)[1..] == blanks[1..] + s;
      BlanksSkipped(blanks[1..], s);
    }
  }

  lemma SpellStarts(ps: seq<Piece>, rest: Bytes)
    requires AllFit(ps) && ps != []
    ensures var s := SpellAll(ps) + rest; s != [] && !Whitespace(s[0])
  {
    assert Fits(ps[0]);
    assert Spell(ps[0]) != [] && (SpellAll(ps) + rest)[0] == Spell(ps[0])[0];
  }

  /** A token of any parts is read as what they mean, one after the other, escaped for a shell. */
  lemma TokenReads(blanks: Bytes, ps: seq<Piece>, rest: Bytes)
    requires Blanks(blanks) && ps != [] && AllFit(ps) && EndsToken(rest)
    ensures NextToken(blanks + (SpellAll(ps) + rest)) == Token(Shell(MeaningAll(ps)), rest, true)
    ensures Unescaped(Shell(MeaningAll(ps))) == MeaningAll(ps)
  {
    hide Lex, Shell, Fits, SpellAll, MeaningAll, Unescaped;
    SpellStarts(ps, rest);
    BlanksSkipped(blanks, SpellAll(ps) + rest);
    PiecesRead(ps, rest);
    LexEnds(rest);
    ShellUnescapes(MeaningAll(ps));
    assert Shell(MeaningAll(ps)) + [] == Shell(MeaningAll(ps));
  }

  /** A quote that nothing closes fails, whatever parts are before it. */
  lemma UnclosedFails(blanks: Bytes, ps: seq<Piece>, text: Bytes, quote: u8)
    requires Blanks(blanks) && AllFit(ps) && NoCodes(text) && quote !in text && (quote == SINGLE || quote == DOUBLE)
    ensures !NextToken(blanks + (SpellAll(ps) + ([quote] + text))).ok
  {
    hide Lex, Take, Shell, Fits, Spell, MeaningAll, NoCodes;
    var q := if quote == SINGLE then InSingle else InDouble(false);
    if ps == [] {
      assert SpellAll(ps) + ([quote] + text) == [quote] + text;
    } else {
      SpellStarts(ps, [quote] + text);
    }
    BlanksSkipped(blanks, SpellAll(ps) + ([quote] + text));
    PiecesRead(ps, [quote] + text);
    TakeQuotes();
    LexQuote(Unquoted, quote, q, text);
    TextReads(q, text, quote);
    LexReads(q, text, []);
    assert text + [] == text;
    LexOpen(q);
  }

  lemma TextReads(q: Quote, text: Bytes, quote: u8)
    requires NoCodes(text) && quote !in text
    requires (quote == SINGLE && q == InSingle) || (quote == DOUBLE && q == InDouble(false))
    ensures forall i :: 0 <= i < |text| ==> Reads(q, text[i])
  {
  }

  lemma LexOpen(q: Quote)
    requires q != Unquoted
    ensures Lex([], q) == Token([], [], false)
  {
  }

  // ---------- a whole field ----------

  datatype Item = Item(blanks: Bytes, pieces: seq<Piece>)

  predicate GoodItems(items: seq<Item>) {
    forall i :: 0 <= i < |items| ==>
      && Blanks(items[i].blanks) && (i > 0 ==> items[i].blanks != [])
      && items[i].pieces != [] && AllFit(items[i].pieces)
  }

  function FieldText(items: seq<Item>, tail: Bytes): Bytes {
    if items == [] then tail else items[0].blanks + (SpellAll(items[0].pieces) + FieldText(items[1..], tail))
  }

  /** The arguments of a field; white space at its end gives one more, empty, argument. */
  function FieldMeans(items: seq<Item>, tail: Bytes): seq<Bytes> {
    if items == [] then if tail == [] then [] else [[]]
    else [Shell(MeaningAll(items[0].pieces))] + FieldMeans(items[1..], tail)
  }

  lemma ItemsTail(items: seq<Item>, tail: Bytes)
    requires GoodItems(items) && items != [] && Blanks(tail)
    ensures GoodItems(items[1..]) && EndsToken(FieldText(items[1..], tail))
  {
    hide AllFit, SpellAll;
    var rest := items[1..];
    assert forall i :: 0 <= i < |rest| ==> rest[i] == items[i + 1];
    if rest != [] {
      assert FieldText(rest, tail)[0] == rest[0].blanks[0];
    }
  }

  lemma TailMeans(tail: Bytes)
    requires Blanks(tail) && tail != []
    ensures Fields(tail) == Some([[]])
  {
    hide Take;
    BlanksSkipped(tail, []);
    assert tail + [] == tail;
    var t := NextToken(tail);
    assert t == Token([], [], true);
    assert [t.arg] + NONE == [[]];
  }

  /** Splitting a field gives what its tokens mean, in order. */
  lemma {:induction false} FieldReads(items: seq<Item>, tail: Bytes)
    requires GoodItems(items) && Blanks(tail)
    ensures Fields(FieldText(items, tail)) == Some(FieldMeans(items, tail))
    decreases |items|
  {
    if items == [] {
      if tail != [] {
        TailMeans(tail);
      }
    } else {
      hide Fields, NextToken, SpellAll, MeaningAll, Shell, AllFit;
      var rest := FieldText(items[1..], tail);
      ItemsTail(items, tail);
      TokenReads(items[0].blanks, items[0].pieces, rest);
      SpellStarts(items[0].pieces, rest);
      FieldReads(items[1..], tail);
      FieldsFirst(FieldText(items, tail));
      assert [] + Shell(MeaningAll(items[0].pieces)) == Shell(MeaningAll(items[0].pieces));
    }
  }

  /** A field with a quote that nothing closes fails as a whole. */
  lemma {:induction false} FieldFails(items: seq<Item>, blanks: Bytes, ps: seq<Piece>, text: Bytes, quote: u8)
    requires GoodItems(items) && Blanks(blanks) && (items != [] ==> blanks != [])
    requires AllFit(ps) && NoCodes(text) && quote !in text && (quote == SINGLE || quote == DOUBLE)
    ensures Fields(FieldText(items, blanks + (SpellAll(ps) + ([quote] + text)))) == None
    decreases |items|
  {
    hide Fields, NextToken, SpellAll, MeaningAll, Shell, AllFit, NoCodes;
    var last := blanks + (SpellAll(ps) + ([quote] + text));
    if items == [] {
      UnclosedFails(blanks, ps, text, quote);
      FieldsFirst(last);
    } else {
      var rest := FieldText(items[1..], last);
      FailingTail(items, last);
      TokenReads(items[0].blanks, items[0].pieces, rest);
      SpellStarts(items[0].pieces, rest);
      FieldFails(items[1..], blanks, ps, text, quote);
      FieldsFirst(FieldText(items, last));
    }
  }

  lemma FailingTail(items: seq<Item>, last: Bytes)
    requires GoodItems(items) && items != [] && last != [] && Whitespace(last[0])
    ensures GoodItems(items[1..]) && EndsToken(FieldText(items[1..], last))
  {
    hide AllFit, SpellAll;
    var rest := items[1..];
    assert forall i :: 0 <= i < |rest| ==> rest[i] == items[i + 1];
    if rest != [] {
      assert FieldText(rest, last)[0] == rest[0].blanks[0];
    }
  }

  // ---------- encoded paths ----------

  /** The bytes that are encoded in paths. */
  const CODED: Bytes := [
    '\t' as u8, '\n' as u8, '\r' as u8, ' ' as u8, '$' as u8, '(' as u8, ')' as u8]

  /** A path for a shell: a backslash before white space, dollar signs, parentheses and all that means something. */
  function ShellPath(path: Bytes): Bytes {
    if path == [] then []
    else (if path[0] in CODED || path[0] in META then [BACKSLASH, path[0]] else [path[0]]) + ShellPath(path[1..])
  }

  /** What a path's byte is coded as is no quote and no white space, and is escaped if it is coded or means something. */
  lemma CodeFacts(c: u8)
    requires c != SINGLE && c != DOUBLE && !PathCode(c)
    ensures var e := PathEncode(c);
      && !Whitespace(e) && e != SINGLE && e != DOUBLE && PathDecode(e) == c
      && (ShellMeta(e) <==> c in CODED || c in META)
      && (!ShellMeta(e) ==> e == c && e != BACKSLASH)
  {
    hide META;
    CodesApart(c);
    MetaHas();
    assert c in CODED <==> PathEncode(c) != c;
  }

  lemma TakeCode(q: Quote, c: u8)
    requires q != InDouble(true) && c != SINGLE && c != DOUBLE && !PathCode(c)
    ensures Take(q, PathEncode(c)) == Go(q, if c in CODED || c in META then [BACKSLASH, c] else [c])
  {
    hide META, CODED, PathEncode, PathDecode, ShellMeta;
    CodeFacts(c);
    SpaceIsWhite(PathEncode(c));
  }

  lemma SpaceIsWhite(c: u8)
    requires !Whitespace(c)
    ensures c != SPACE
  {
  }

  /** An encoded path prints itself for a shell, in every quoting context alike. */
  lemma {:induction false} PathPrinted(path: Bytes, q: Quote)
    requires q != InDouble(true) && NoQuotes(path)
    ensures Printed(path, q) == ShellPath(path)
  {
    if path != [] {
      hide Take, PathEncode, PathCode, NoQuotes, META, CODED;
      NoQuotesFirst(path);
      TakeCode(q, path[0]);
      PrintedStep(path, q);
      PathPrinted(path[1..], q);
    }
  }
}
