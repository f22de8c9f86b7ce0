/** A path bound to a variable, referenced in a field, and split: it comes out whole. */
module Paths {
  import opened Bytes
  import E = Expand
  import opened Dequote

  lemma {:induction false} EncodedHasNoDollar(path: Bytes)
    requires NoQuotes(path)
    ensures E.DOLLAR !in PathEncoded(path)
  {
    forall i | 0 <= i < |path|
      ensures PathEncoded(path)[i] != E.DOLLAR
    {
      CodesApart(path[i]);
    }
  }

  /** A reference to an encoded path expands to the encoded path. */
  lemma PathExpands(global: E.Vars, env: E.Vars, level: nat, name: Bytes, path: Bytes, post: Bytes)
    requires E.CLOSE !in name && level < E.SLOTS - 1 && NoQuotes(path)
    requires E.Lookup(global, env, name) == Some(PathEncoded(path))
    ensures E.Expansion(global, env, level, E.Reference(name) + post)
      == E.Outcome(PathEncoded(path), None).Then(E.Expansion(global, env, level, post))
  {
    hide E.Expansion, E.Lookup;
    E.ReferenceExpands(global, env, level, name, PathEncoded(path), post);
    EncodedHasNoDollar(path);
    E.PlainExpands(global, env, level + 1, PathEncoded(path));
  }

  // ---------- reaching the path through values ----------

  /** One step on the way to the path: a reference, and the text around it. */
  datatype Hop = Hop(before: Bytes, name: Bytes, after: Bytes)

  /** The text refers to a variable whose value does, and so on, down to one that holds the encoded path. */
  ghost predicate Leads(global: E.Vars, env: E.Vars, s: Bytes, hops: seq<Hop>, path: Bytes)
    decreases |hops|
  {
    && hops != []
    && var h := hops[0];
    && s == h.before + (E.Reference(h.name) + h.after) && E.Complete(h.before) && E.CLOSE !in h.name
    && var value := E.Lookup(global, env, h.name);
    && value.Some?
    && if |hops| == 1 then value.value == PathEncoded(path) else Leads(global, env, value.value, hops[1..], path)
  }

  /** What is printed before the path, and after it. */
  ghost function Before(global: E.Vars, env: E.Vars, level: nat, hops: seq<Hop>): Bytes
    decreases |hops|
  {
    if hops == [] then []
    else E.Expansion(global, env, level, hops[0].before).out + Before(global, env, level + 1, hops[1..])
  }

  ghost function After(global: E.Vars, env: E.Vars, level: nat, hops: seq<Hop>): Bytes
    decreases |hops|
  {
    if hops == [] then []
    else After(global, env, level + 1, hops[1..]) + E.Expansion(global, env, level, hops[0].after).out
  }

  lemma ReferenceNeedsRoom(global: E.Vars, env: E.Vars, level: nat, name: Bytes, post: Bytes)
    requires E.Expansion(global, env, level, E.Reference(name) + post).error == None
    ensures level < E.SLOTS - 1
  {
    hide E.Expansion, E.Lookup, E.NameEnd;
    E.FailingExpansion(global, env, level, E.Reference(name) + post, 0);
  }

  /** One step: what is around the reference is printed around what its value expands to. */
  lemma HopExpands(global: E.Vars, env: E.Vars, level: nat, h: Hop, value: Bytes)
    requires E.Complete(h.before) && E.CLOSE !in h.name && E.Lookup(global, env, h.name) == Some(value)
    requires E.Expansion(global, env, level, h.before + (E.Reference(h.name) + h.after)).error == None
    ensures E.Expansion(global, env, level + 1, value).error == None
    ensures E.Expansion(global, env, level, h.before + (E.Reference(h.name) + h.after)).out
      == E.Expansion(global, env, level, h.before).out
         + (E.Expansion(global, env, level + 1, value).out + E.Expansion(global, env, level, h.after).out)
  {
    hide E.Expansion, E.Lookup, E.Complete, E.Reference;
    E.ExpansionJoins(global, env, level, h.before, E.Reference(h.name) + h.after);
    ReferenceNeedsRoom(global, env, level, h.name, h.after);
    E.ReferenceExpands(global, env, level, h.name, value, h.after);
  }

  lemma Nested(a: Bytes, b: Bytes, c: Bytes, d: Bytes, e: Bytes)
    ensures a + ((b + (c + d)) + e) == (a + b) + (c + (d + e))
  {
  }

  /** However many values lead to the path, it is printed whole between what comes before and what comes after. */
  lemma {:induction false} PathReached(global: E.Vars, env: E.Vars, level: nat, s: Bytes, hops: seq<Hop>, path: Bytes)
    requires NoQuotes(path) && Leads(global, env, s, hops, path)
    requires E.Expansion(global, env, level, s).error == None
    ensures E.Expansion(global, env, level, s).out
      == Before(global, env, level, hops) + (PathEncoded(path) + After(global, env, level, hops))
    decreases |hops|
  {
    hide E.Expansion, E.Lookup, E.Complete, E.Reference, PathEncoded, NoQuotes;
    var h := hops[0];
    var value := E.Lookup(global, env, h.name).value;
    HopExpands(global, env, level, h, value);
    var b, a := Before(global, env, level + 1, hops[1..]), After(global, env, level + 1, hops[1..]);
    var pre, post := E.Expansion(global, env, level, h.before).out, E.Expansion(global, env, level, h.after).out;
    if |hops| == 1 {
      EncodedHasNoDollar(path);
      E.PlainExpands(global, env, level + 1, PathEncoded(path));
      assert [] + (PathEncoded(path) + []) == PathEncoded(path);
    } else {
      PathReached(global, env, level + 1, value, hops[1..], path);
    }
    Nested(pre, b, PathEncoded(path), a, post);
  }

  // ---------- the field around the path ----------

  lemma EscapedMore(out: Bytes, more: Bytes)
    requires out == [] || (|out| == 1 && Plain(out[0])) || (|out| == 2 && out[0] == BACKSLASH)
    requires Escaped(more)
    ensures Escaped(out + more)
  {
    assert out == [] ==> out + more == more;
    assert |out| == 1 ==> (out + more)[1..] == more;
    assert |out| == 2 ==> (out + more)[2..] == more;
  }

  /** The first byte, or pair, is undone in the same way whatever follows the text. */
  lemma UnescapedFront(a: Bytes, b: Bytes) returns (n: nat, c: u8)
    requires Escaped(a) && a != []
    ensures 0 < n <= |a| && Escaped(a[n..])
    ensures Unescaped(a) == [c] + Unescaped(a[n..])
    ensures Unescaped(a + b) == [c] + Unescaped(a[n..] + b)
  {
    PlainIsNoBackslash();
    hide Plain;
    if a[0] == BACKSLASH {
      n, c := 2, a[1];
    } else {
      n, c := 1, a[0];
    }
    assert (a + b)[n..] == a[n..] + b;
  }

  /** Undoing escapes goes part by part, if the first part ends no backslash short. */
  lemma {:induction false} UnescapedJoins(a: Bytes, b: Bytes)
    requires Escaped(a)
    ensures Unescaped(a + b) == Unescaped(a) + Unescaped(b)
    decreases |a|
  {
    if a == [] {
      hide Escaped;
      assert a + b == b;
    } else {
      hide Escaped, Unescaped;
      var n, c := UnescapedFront(a, b);
      UnescapedJoins(a[n..], b);
      assert [c] + (Unescaped(a[n..]) + Unescaped(b)) == [c] + Unescaped(a[n..]) + Unescaped(b);
    }
  }

  lemma PlainIsNoBackslash()
    ensures !Plain(BACKSLASH)
  {
    assert BACKSLASH in META;
  }

  lemma {:induction false} PrintedEscaped(path: Bytes, q: Quote)
    requires q != InDouble(true) && NoQuotes(path)
    ensures Escaped(Printed(path, q))
  {
    if path != [] {
      hide Take, PathEncode, PathCode, Escaped;
      TakeEncoded(q, path[0]);
      TakeEscapes(q, PathEncode(path[0]));
      PrintedEscaped(path[1..], q);
      EscapedMore(Take(q, PathEncode(path[0])).out, Printed(path[1..], q));
    }
  }

  /** The automaton after some text: the tokens that are done, and the one it is in. */
  datatype Scanned = Scanned(done: seq<Bytes>, mode: Mode, cur: Bytes)

  const START := Scanned([], Skip, [])

  function ScanByte(w: Scanned, c: u8): Scanned {
    match w.mode
    case Skip =>
      if Whitespace(c) then w
      else
        (match Take(Unquoted, c)
         case Stop => w
         case Go(next, out) => Scanned(w.done, In(next), out))
    case In(q) =>
      match Take(q, c)
      case Stop => Scanned(w.done + [w.cur], Skip, [])
      case Go(next, out) => Scanned(w.done, In(next), w.cur + out)
  }

  function Scan(w: Scanned, s: Bytes): Scanned
    decreases |s|
  {
    if s == [] then w else Scan(ScanByte(w, s[0]), s[1..])
  }

  predicate Sane(w: Scanned) {
    match w.mode
    case Skip => w.cur == []
    case In(q) => q != InDouble(true) && Escaped(w.cur)
  }

  function OnDone(done: seq<Bytes>, more: Option<seq<Bytes>>): Option<seq<Bytes>> {
    if more.Some? then Some(done + more.value) else None
  }

  /** All tokens, going on from here. */
  function From(w: Scanned, rest: Bytes): Option<seq<Bytes>> {
    OnDone(w.done, Pass(rest, w.mode, w.cur))
  }

  lemma {:induction false} EscapedJoins(a: Bytes, b: Bytes)
    requires Escaped(a) && Escaped(b)
    ensures Escaped(a + b)
    decreases |a|
  {
    hide Plain;
    if a == [] {
      assert a + b == b;
    } else if a[0] == BACKSLASH && |a| >= 2 && Escaped(a[2..]) {
      assert (a + b)[2..] == a[2..] + b;
      EscapedJoins(a[2..], b);
    } else {
      assert (a + b)[1..] == a[1..] + b;
      EscapedJoins(a[1..], b);
    }
  }

  lemma OneEscaped(out: Bytes)
    requires out == [] || (|out| == 1 && Plain(out[0])) || (|out| == 2 && out[0] == BACKSLASH)
    ensures Escaped(out)
  {
    EscapedMore(out, []);
    assert out + [] == out;
  }

  lemma SaneStep(w: Scanned, c: u8)
    requires Sane(w)
    ensures Sane(ScanByte(w, c))
  {
    hide Take, Escaped, Whitespace, Plain;
    var q := if w.mode.In? then w.mode.q else Unquoted;
    if Take(q, c).Go? {
      TakeEscapes(q, c);
      OneEscaped(Take(q, c).out);
      if w.mode.In? {
        EscapedJoins(w.cur, Take(q, c).out);
      }
    } else {
      EscapedNothing();
    }
  }

  lemma EscapedNothing()
    ensures Escaped([])
  {
  }

  lemma DoneMore(done: seq<Bytes>, one: Bytes, more: Option<seq<Bytes>>)
    ensures OnDone(done + [one], more) == OnDone(done, OnDone([one], more))
  {
    if more.Some? {
      assert done + [one] + more.value == done + ([one] + more.value);
    }
  }

  lemma PassByte(mode: Mode, cur: Bytes, c: u8, rest: Bytes)
    ensures Pass([c] + rest, mode, cur)
      == match mode
         case Skip =>
           if Whitespace(c) then Pass(rest, Skip, [])
           else (match Take(Unquoted, c) case Stop => None case Go(next, out) => Pass(rest, In(next), out))
         case In(q) =>
           match Take(q, c)
           case Stop => OnDone([cur], Pass(rest, Skip, []))
           case Go(next, out) => Pass(rest, In(next), cur + out)
  {
    hide Take, Whitespace;
    assert ([c] + rest)[1..] == rest;
  }

  lemma ScanStep(w: Scanned, c: u8, rest: Bytes)
    requires Sane(w)
    ensures From(w, [c] + rest) == From(ScanByte(w, c), rest)
  {
    hide Take, Whitespace, Pass, Escaped;
    PassByte(w.mode, w.cur, c, rest);
    match w.mode
    case Skip =>
      if !Whitespace(c) {
        StartsToken(c);
      }
    case In(q) =>
      if Take(q, c).Stop? {
        DoneMore(w.done, w.cur, Pass(rest, Skip, []));
      }
  }

  /** The tokens of a text are those done after its first part, and those of the rest from there. */
  lemma {:induction false} ScanFrom(w: Scanned, s: Bytes, rest: Bytes)
    requires Sane(w)
    ensures Sane(Scan(w, s)) && From(w, s + rest) == From(Scan(w, s), rest)
    decreases |s|
  {
    hide Sane, From, ScanByte;
    if s == [] {
      assert s + rest == rest;
    } else {
      SaneStep(w, s[0]);
      ScanFrom(ScanByte(w, s[0]), s[1..], rest);
      ScanStep(w, s[0], s[1..] + rest);
      assert s + rest == [s[0]] + (s[1..] + rest);
    }
  }

  function Quoting(mode: Mode): Quote { if mode.In? then mode.q else Unquoted }

  /** A token that starts here is one that goes on from nothing. */
  lemma StartsHere(s: Bytes)
    requires s != [] && !Whitespace(s[0])
    ensures Pass(s, Skip, []) == Pass(s, In(Unquoted), [])
  {
    hide Take, Whitespace;
    StartsToken(s[0]);
    var out := Take(Unquoted, s[0]).out;
    assert [] + out == out;
  }

  lemma EncodedStarts(path: Bytes, rest: Bytes)
    requires path != [] && NoQuotes(path)
    ensures var e := PathEncoded(path) + rest; e != [] && !Whitespace(e[0])
  {
    EncodedStep(path, rest);
    CodesApart(path[0]);
  }

  lemma FirstOnto(t: Token, out: Bytes, cur: Bytes)
    ensures WithFirst(Onto(out, t), cur) == WithFirst(t, cur + out)
  {
    hide Fields;
    assert cur + (out + t.arg) == cur + out + t.arg;
  }

  /** The path's token goes on, in the same quoting, with what the path prints. */
  lemma PathFrom(w: Scanned, path: Bytes, after: Bytes)
    requires Sane(w) && NoQuotes(path) && (path != [] || w.mode.In?)
    ensures var q := Quoting(w.mode);
      From(w, PathEncoded(path) + after) == OnDone(w.done, WithFirst(Lex(after, q), w.cur + Printed(path, q)))
  {
    hide Take, Whitespace, Pass, Lex, WithFirst, Printed, PathEncoded, NoQuotes, Escaped, Onto;
    var q := Quoting(w.mode);
    var e := PathEncoded(path) + after;
    if w.mode.Skip? {
      EncodedStarts(path, after);
      StartsHere(e);
    }
    PassIn(e, q, w.cur);
    PathSurvives(path, q, after);
    FirstOnto(Lex(after, q), Printed(path, q), w.cur);
  }

  /** What the fields around a path look like: its token unescapes to what is before the path in it, the path, and
      what is after; the other tokens are those of the text around. */
  ghost predicate ComesOut(fields: Option<seq<Bytes>>, w: Scanned, path: Bytes, after: Bytes) {
    var t := Lex(after, Quoting(w.mode));
    var rest := Fields(t.tail);
    if !t.ok || rest == None then fields == None
    else
      var k := |w.done|;
      && fields.Some? && |fields.value| == k + 1 + |rest.value|
      && fields.value[..k] == w.done && fields.value[k + 1..] == rest.value
      && Unescaped(fields.value[k]) == Unescaped(w.cur) + path + Unescaped(t.arg)
  }

  lemma TokenUnescapes(w: Scanned, path: Bytes, after: Bytes)
    requires Sane(w) && NoQuotes(path)
    ensures var q := Quoting(w.mode); var t := Lex(after, q);
      Unescaped(w.cur + Printed(path, q) + t.arg) == Unescaped(w.cur) + path + Unescaped(t.arg)
  {
    hide Take, Unescaped, Lex, Printed, NoQuotes, Escaped;
    var q := Quoting(w.mode);
    var printed, arg := Printed(path, q), Lex(after, q).arg;
    EscapedNothing();
    PathSurvives(path, q, after);
    PrintedEscaped(path, q);
    UnescapedJoins(printed, arg);
    UnescapedJoins(w.cur, printed + arg);
    assert w.cur + printed + arg == w.cur + (printed + arg);
    assert Unescaped(w.cur) + path + Unescaped(arg) == Unescaped(w.cur) + (path + Unescaped(arg));
  }

  lemma Assembled(done: seq<Bytes>, token: Bytes, rest: seq<Bytes>)
    ensures var all := done + ([token] + rest);
      && |all| == |done| + 1 + |rest| && all[..|done|] == done && all[|done| + 1..] == rest && all[|done|] == token
  {
  }

  /** A path in a field, wherever it is. */
  lemma PathInField(before: Bytes, path: Bytes, after: Bytes)
    requires NoQuotes(path) && (path != [] || Scan(START, before).mode.In?)
    ensures ComesOut(Fields(before + (PathEncoded(path) + after)), Scan(START, before), path, after)
  {
    hide Take, Pass, Lex, Fields, Unescaped, Printed, PathEncoded, NoQuotes, Escaped, Scan, Sane, Quoting;
    var w := Scan(START, before);
    var field := before + (PathEncoded(path) + after);
    StartSane(before, path);
    assert field != [];
    FieldsPass(field);
    assert From(START, field) == Fields(field) by { StartFrom(field); }
    ScanFrom(START, before, PathEncoded(path) + after);
    PathFrom(w, path, after);
    TokenUnescapes(w, path, after);
    var t := Lex(after, Quoting(w.mode));
    var rest := Fields(t.tail);
    if t.ok && rest.Some? {
      Assembled(w.done, w.cur + Printed(path, Quoting(w.mode)) + t.arg, rest.value);
    }
  }

  lemma StartSane(before: Bytes, path: Bytes)
    requires path != [] || Scan(START, before).mode.In?
    ensures Sane(START) && before + PathEncoded(path) != []
  {
    hide PathEncode;
  }

  lemma StartFrom(field: Bytes)
    ensures From(START, field) == Pass(field, Skip, [])
  {
    hide Pass;
    var r := Pass(field, Skip, []);
    if r.Some? {
      assert [] + r.value == r.value;
    }
  }

  /**
   * A field's text that leads to a path, through values or not, expanded and split: the token that the path is in, in
   * whatever quoting and wherever in the field, unescapes to what comes before in the token, the path itself, and what
   * comes after, and no other token depends on it. Only an empty path outside all tokens makes no token of its own.
   */
  lemma PathComesOutWhole(global: E.Vars, env: E.Vars, s: Bytes, hops: seq<Hop>, path: Bytes)
    requires NoQuotes(path) && Leads(global, env, s, hops, path)
    requires E.Expansion(global, env, 0, s).error == None
    ensures var before, after := Before(global, env, 0, hops), After(global, env, 0, hops);
      var fields := Fields(E.Expansion(global, env, 0, s).out);
      if path == [] && Scan(START, before).mode.Skip? then fields == Fields(before + after)
      else ComesOut(fields, Scan(START, before), path, after)
  {
    hide E.Expansion, Leads, Before, After, NoQuotes, Fields, ComesOut, Scan;
    PathReached(global, env, 0, s, hops, path);
    var before, after := Before(global, env, 0, hops), After(global, env, 0, hops);
    if path == [] && Scan(START, before).mode.Skip? {
      assert [] + after == after;
    } else {
      hide PathEncoded;
      PathInField(before, path, after);
    }
  }

  /** The token of a path. */
  ghost predicate HoldsPath(token: Bytes, u: Bytes, path: Bytes, v: Bytes) {
    Unescaped(token) == u + path + v
  }

  /** Two paths in the same place give as many tokens, which differ in the path's only. */
  lemma OnlyItsTokenDiffers(before: Bytes, p1: Bytes, p2: Bytes, after: Bytes)
    requires NoQuotes(p1) && NoQuotes(p2)
    requires (p1 != [] && p2 != []) || Scan(START, before).mode.In?
    ensures var f1, f2 := Fields(before + (PathEncoded(p1) + after)), Fields(before + (PathEncoded(p2) + after));
      && (f1.Some? <==> f2.Some?)
      && (f1.Some? ==>
            && |f1.value| == |f2.value|
            && exists k :: 0 <= k < |f1.value|
                 && f1.value[..k] == f2.value[..k] && f1.value[k + 1..] == f2.value[k + 1..]
                 && exists u, v :: HoldsPath(f1.value[k], u, p1, v) && HoldsPath(f2.value[k], u, p2, v))
  {
    hide Lex, Fields, Unescaped, PathEncoded, NoQuotes, Scan;
    PathInField(before, p1, after);
    PathInField(before, p2, after);
    var w := Scan(START, before);
    var k := |w.done|;
    var f1, f2 := Fields(before + (PathEncoded(p1) + after)), Fields(before + (PathEncoded(p2) + after));
    if f1.Some? {
      var u, v := Unescaped(w.cur), Unescaped(Lex(after, Quoting(w.mode)).arg);
      assert HoldsPath(f1.value[k], u, p1, v) && HoldsPath(f2.value[k], u, p2, v);
    }
  }
}
