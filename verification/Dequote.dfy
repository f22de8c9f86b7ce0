/** Shell-like field splitting, its escapes, and the byte codes that carry paths through it. */
module Dequote {
  import opened Bytes

  const BACKSLASH: u8 := '\\' as u8
  const SINGLE: u8 := '\'' as u8
  const DOUBLE: u8 := '"' as u8
  const SPACE: u8 := ' ' as u8

  // ---------- path codes ----------

  /** Bytes that no UTF-8 text holds stand for white space and meta characters of paths. */
  function PathEncode(c: u8): u8 {
    if c == '\t' as u8 then 0xf8
    else if c == '\n' as u8 then 0xf9
    else if c == '\r' as u8 then 0xfa
    else if c == ' ' as u8 then 0xfb
    else if c == '$' as u8 then 0xfc
    else if c == '(' as u8 then 0xfd
    else if c == ')' as u8 then 0xfe
    else c
  }

  function PathDecode(c: u8): u8 {
    if c == 0xf8 then '\t' as u8
    else if c == 0xf9 then '\n' as u8
    else if c == 0xfa then '\r' as u8
    else if c == 0xfb then ' ' as u8
    else if c == 0xfc then '$' as u8
    else if c == 0xfd then '(' as u8
    else if c == 0xfe then ')' as u8
    else c
  }

  predicate PathCode(c: u8) { 0xf8 <= c <= 0xfe }

  function PathEncoded(s: Bytes): (r: Bytes)
    ensures |r| == |s| && forall i :: 0 <= i < |s| ==> r[i] == PathEncode(s[i])
  {
    if s == [] then [] else [PathEncode(s[0])] + PathEncoded(s[1..])
  }

  /** Copies only if some byte changes. */
  method EncodePath(s: Bytes) returns (r: Bytes)
    ensures r == PathEncoded(s)
  {
    var encode := false;
    var i := 0;
    while i < |s| && !encode
      invariant i <= |s|
      invariant !encode ==> forall j :: 0 <= j < i ==> PathEncode(s[j]) == s[j]
    {
      encode := PathEncode(s[i]) != s[i];
      i := i + 1;
    }
    if !encode {
      return s;
    }
    r := s;
    for k := 0 to |s|
      invariant |r| == |s|
      invariant forall j :: 0 <= j < k ==> r[j] == PathEncode(s[j])
    {
      r := r[k := PathEncode(s[k])];
    }
  }

  // ---------- one byte of the quote automaton ----------

  const META: Bytes := [
    '"' as u8, '!' as u8, '#' as u8, '%' as u8, '&' as u8, '\'' as u8, '*' as u8, '<' as u8, '>' as u8,
    '?' as u8, '[' as u8, '\\' as u8, ']' as u8, '`' as u8, '{' as u8, '|' as u8, '}' as u8]

  predicate ShellMeta(c: u8) {
    c in META || PathDecode(c) != c
  }

  /** A byte that needs no escape in the output. */
  predicate Plain(c: u8) {
    !Whitespace(c) && !ShellMeta(c)
  }

  datatype Quote = Unquoted | InSingle | InDouble(escaped: bool)

  datatype Step = Stop | Go(next: Quote, out: Bytes)

  function Take(q: Quote, byte: u8): Step {
    var c := if Whitespace(byte) then SPACE else byte;
    var decoded := PathDecode(c);
    match q
    case InSingle =>
      if c == SINGLE then Go(Unquoted, [])
      else if c == SPACE || ShellMeta(c) then Go(q, [BACKSLASH, decoded])
      else Go(q, [decoded])
    case InDouble(escaped) =>
      if escaped then
        Go(InDouble(false),
           (if c != BACKSLASH && c != DOUBLE then
              [BACKSLASH] + if c == SPACE || ShellMeta(c) then [BACKSLASH] else []
            else []) + [decoded])
      else if c == DOUBLE then Go(Unquoted, [])
      else if c == SPACE || ShellMeta(c) then Go(q, [BACKSLASH, decoded])
      else Go(InDouble(c == BACKSLASH), [decoded])
    case Unquoted =>
      if c == SINGLE then Go(InSingle, [])
      else if c == DOUBLE then Go(InDouble(false), [])
      else if ShellMeta(c) then Go(q, [BACKSLASH, decoded])
      else if c == SPACE then Stop
      else Go(q, [c])
  }

  // ---------- one token ----------

  datatype Token = Token(arg: Bytes, tail: Bytes, ok: bool)

  /** The token's text from here on, what follows it, and whether all quotes are closed. */
  function Lex(s: Bytes, q: Quote): (t: Token)
    ensures |t.tail| <= |s|
  {
    if s == [] then Token([], [], q == Unquoted)
    else
      match Take(q, s[0])
      case Stop => Token([], s, true)
      case Go(next, out) =>
        var rest := Lex(s[1..], next);
        Token(out + rest.arg, rest.tail, rest.ok)
  }

  function NextToken(s: Bytes): Token {
    Lex(AfterBlanks(s), Unquoted)
  }

  /** Scans one token by index; an unmatched quote gives up. */
  method Dequote(field: Bytes) returns (r: Token)
    ensures r.ok <==> NextToken(field).ok
    ensures r.ok ==> r == NextToken(field)
    ensures field != [] ==> |r.tail| < |field|
  {
    hide Take;
    var s := field;
    while s != [] && Whitespace(s[0])
      invariant |s| <= |field| && AfterBlanks(s) == AfterBlanks(field)
    {
      s := s[1..];
    }
    LexShrinks(s);
    var out: Bytes := [];
    var q := Unquoted;
    var i := 0;
    while i < |s|
      invariant i <= |s|
      invariant var t := Lex(s[i..], q);
        NextToken(field) == Token(out + t.arg, t.tail, t.ok)
    {
      assert s[i..][1..] == s[i + 1..];
      match Take(q, s[i])
      case Stop =>
        assert out + [] == out;
        return Token(out, s[i..], true);
      case Go(next, more) =>
        ghost var rest := Lex(s[i + 1..], next);
        assert out + (more + rest.arg) == out + more + rest.arg;
        out := out + more;
        q := next;
        i := i + 1;
    }
    assert out + [] == out;
    r := if q != Unquoted then Token([], [], false) else Token(out, [], true);
  }

  lemma LexShrinks(s: Bytes)
    requires s != [] ==> !Whitespace(s[0])
    ensures s != [] ==> |Lex(s, Unquoted).tail| < |s|
  {
  }

  // ---------- what a token's text looks like ----------

  /** Plain bytes, and pairs of a backslash and any byte. */
  predicate Escaped(arg: Bytes) {
    || arg == []
    || (arg[0] == BACKSLASH && |arg| >= 2 && Escaped(arg[2..]))
    || (Plain(arg[0]) && Escaped(arg[1..]))
  }

  /** Undoes the escapes of a token. */
  function Unescaped(arg: Bytes): Bytes {
    if arg == [] then []
    else if arg[0] == BACKSLASH && |arg| >= 2 then [arg[1]] + Unescaped(arg[2..])
    else [arg[0]] + Unescaped(arg[1..])
  }

  /** Outside an escape in double quotes, every step prints nothing, a plain byte, or a pair. */
  lemma TakeEscapes(q: Quote, c: u8)
    requires q != InDouble(true) && Take(q, c).Go?
    ensures Take(q, c).next != InDouble(true)
    ensures var out := Take(q, c).out;
      out == [] || (|out| == 1 && Plain(out[0])) || (|out| == 2 && out[0] == BACKSLASH)
  {
    assert BACKSLASH in META;
  }

  /** Every token is a sequence of plain bytes and escaped bytes. */
  lemma {:induction false} LexEscaped(s: Bytes, q: Quote)
    requires q != InDouble(true)
    ensures Escaped(Lex(s, q).arg)
  {
    if s != [] {
      match Take(q, s[0])
      case Stop =>
      case Go(next, out) =>
        hide Take;
        TakeEscapes(q, s[0]);
        LexEscaped(s[1..], next);
        var rest := Lex(s[1..], next).arg;
        assert out == [] ==> out + rest == rest;
        assert |out| == 1 ==> (out + rest)[1..] == rest;
        assert |out| == 2 ==> (out + rest)[2..] == rest;
    }
  }

  lemma TokenEscaped(field: Bytes)
    ensures Escaped(NextToken(field).arg)
  {
    LexEscaped(AfterBlanks(field), Unquoted);
  }

  // ---------- a whole field ----------

  /** All tokens of a field, or nothing if a quote is left open. White space at the end gives an empty token. */
  function Fields(s: Bytes): Option<seq<Bytes>>
    decreases |s|
  {
    if s == [] then Some([])
    else
      LexShrinks(AfterBlanks(s));
      var t := NextToken(s);
      if !t.ok then None
      else
        match Fields(t.tail)
        case None => None
        case Some(more) => Some([t.arg] + more)
  }

  lemma {:induction false} FieldsEscaped(s: Bytes)
    ensures Fields(s).Some? ==> forall i :: 0 <= i < |Fields(s).value| ==> Escaped(Fields(s).value[i])
    decreases |s|
  {
    if s != [] {
      LexShrinks(AfterBlanks(s));
      TokenEscaped(s);
      FieldsEscaped(NextToken(s).tail);
    }
  }

  const NONE: seq<Bytes> := []

  datatype Mode = Skip | In(q: Quote)

  /** The same in one pass of an automaton over the field. */
  function Pass(s: Bytes, mode: Mode, cur: Bytes): Option<seq<Bytes>>
    decreases |s|, if mode.Skip? then 1 else 0
  {
    match mode
    case Skip =>
      if s == [] then Some([[]])
      else if Whitespace(s[0]) then Pass(s[1..], Skip, [])
      else
        (match Take(Unquoted, s[0])
         case Stop => None
         case Go(next, out) => Pass(s[1..], In(next), out))
    case In(q) =>
      if s == [] then
        if q == Unquoted then Some([cur]) else None
      else
        match Take(q, s[0])
        case Stop =>
          (match Pass(s[1..], Skip, [])
           case None => None
           case Some(more) => Some([cur] + more))
        case Go(next, out) => Pass(s[1..], In(next), cur + out)
  }

  /** Puts a first token before the rest. */
  function WithFirst(t: Token, cur: Bytes): Option<seq<Bytes>> {
    if !t.ok then None
    else
      match Fields(t.tail)
      case None => None
      case Some(more) => Some([cur + t.arg] + more)
  }

  lemma FieldsFirst(s: Bytes)
    requires s != []
    ensures |NextToken(s).tail| < |s| && Fields(s) == WithFirst(NextToken(s), [])
  {
    hide Take;
    LexShrinks(AfterBlanks(s));
    assert [] + NextToken(s).arg == NextToken(s).arg;
  }

  lemma StopsAtSpace(q: Quote, c: u8)
    requires Take(q, c).Stop?
    ensures Whitespace(c)
  {
  }

  lemma StartsToken(c: u8)
    requires !Whitespace(c)
    ensures Take(Unquoted, c).Go?
  {
  }

  lemma {:induction false} PassIn(s: Bytes, q: Quote, cur: Bytes)
    ensures Pass(s, In(q), cur) == WithFirst(Lex(s, q), cur)
    decreases |s|, 0
  {
    hide Take, NextToken, Whitespace;
    if s == [] {
      assert cur + [] == cur && [cur] + NONE == [cur];
    } else {
      match Take(q, s[0])
      case Stop =>
        StopsAtSpace(q, s[0]);
        PassSkip(s[1..]);
        FieldsFirst(s);
        SkippedFirst(s);
        assert cur + [] == cur;
      case Go(next, out) =>
        PassIn(s[1..], next, cur + out);
        var rest := Lex(s[1..], next).arg;
        assert cur + out + rest == cur + (out + rest);
    }
  }

  lemma SkippedFirst(s: Bytes)
    requires s != [] && Whitespace(s[0])
    ensures NextToken(s) == NextToken(s[1..])
  {
  }

  lemma {:induction false} PassSkip(s: Bytes)
    ensures Pass(s, Skip, []) == WithFirst(NextToken(s), [])
    decreases |s|, 1
  {
    hide Take;
    if s == [] {
      var arg := NextToken(s).arg;
      assert arg == [] && [] + arg == [] && Fields([]) == Some(NONE);
      assert [[] + arg] + NONE == [[]];
    } else if Whitespace(s[0]) {
      PassSkip(s[1..]);
    } else {
      StartsToken(s[0]);
      var out := Take(Unquoted, s[0]).out;
      PassIn(s[1..], Take(Unquoted, s[0]).next, out);
      assert forall a: Bytes :: [] + a == a;
    }
  }

  /** Splitting token by token is one pass of the automaton over the whole field. */
  lemma FieldsPass(s: Bytes)
    requires s != []
    ensures Fields(s) == Pass(s, Skip, [])
  {
    FieldsFirst(s);
    PassSkip(s);
  }

  // ---------- paths survive ----------

  predicate NoQuotes(path: Bytes) {
    forall i :: 0 <= i < |path| ==> path[i] != SINGLE && path[i] != DOUBLE && !PathCode(path[i])
  }

  /** The encoding is undone, and its codes are neither white space nor quotes nor dollars. */
  lemma CodesApart(c: u8)
    requires !PathCode(c)
    ensures PathDecode(PathEncode(c)) == c
    ensures !Whitespace(PathEncode(c)) && PathEncode(c) != '$' as u8
    ensures c != SINGLE && c != DOUBLE ==> PathEncode(c) != SINGLE && PathEncode(c) != DOUBLE
    ensures PathEncode(c) != c ==> ShellMeta(PathEncode(c))
  {
  }

  /** In every quoting context an encoded byte prints itself, escaped or not, and changes no context. */
  lemma TakeEncoded(q: Quote, c: u8)
    requires q != InDouble(true) && c != SINGLE && c != DOUBLE && !PathCode(c)
    ensures Take(q, PathEncode(c)) == Go(q, [c]) || Take(q, PathEncode(c)) == Go(q, [BACKSLASH, c])
    ensures Take(q, PathEncode(c)) == Go(q, [c]) ==> c != BACKSLASH
  {
    CodesApart(c);
    assert BACKSLASH in META;
  }

  /** What an encoded path prints. */
  function Printed(path: Bytes, q: Quote): Bytes {
    if path == [] then []
    else
      match Take(q, PathEncode(path[0]))
      case Stop => []
      case Go(_, out) => out + Printed(path[1..], q)
  }

  lemma UnescapedStep(c: u8, out: Bytes, rest: Bytes)
    requires out == [BACKSLASH, c] || (out == [c] && c != BACKSLASH)
    ensures Unescaped(out + rest) == [c] + Unescaped(rest)
  {
    assert |out| == 1 ==> (out + rest)[1..] == rest;
    assert |out| == 2 ==> (out + rest)[2..] == rest;
  }

  lemma NoQuotesFirst(path: Bytes)
    requires path != [] && NoQuotes(path)
    ensures path[0] != SINGLE && path[0] != DOUBLE && !PathCode(path[0]) && NoQuotes(path[1..])
  {
    hide PathCode;
  }

  lemma {:induction false} PrintedUnescapes(path: Bytes, q: Quote)
    requires q != InDouble(true) && NoQuotes(path)
    ensures Unescaped(Printed(path, q)) == path
  {
    if path != [] {
      hide Take, PathEncode, PathCode, Unescaped, Printed, NoQuotes;
      NoQuotesFirst(path);
      TakeEncoded(q, path[0]);
      PrintedUnescapes(path[1..], q);
      PrintedStep(path, q);
      UnescapedStep(path[0], Take(q, PathEncode(path[0])).out, Printed(path[1..], q));
      assert path == [path[0]] + path[1..];
    }
  }

  /** A token with more text in front. */
  function Onto(out: Bytes, t: Token): Token {
    Token(out + t.arg, t.tail, t.ok)
  }

  lemma OntoBoth(a: Bytes, b: Bytes, t: Token)
    ensures Onto(a, Onto(b, t)) == Onto(a + b, t) && Onto([], t) == t
  {
    assert a + (b + t.arg) == a + b + t.arg;
  }

  lemma LexStep(s: Bytes, q: Quote)
    requires s != [] && Take(q, s[0]).Go?
    ensures Lex(s, q) == Onto(Take(q, s[0]).out, Lex(s[1..], Take(q, s[0]).next))
  {
    hide Take;
  }

  lemma PrintedStep(path: Bytes, q: Quote)
    requires path != [] && Take(q, PathEncode(path[0])).Go?
    ensures Printed(path, q) == Take(q, PathEncode(path[0])).out + Printed(path[1..], q)
  {
    hide Take, PathEncode;
  }

  lemma EncodedStep(path: Bytes, rest: Bytes)
    requires path != []
    ensures var e := PathEncoded(path) + rest; e[0] == PathEncode(path[0]) && e[1..] == PathEncoded(path[1..]) + rest
  {
    hide PathEncode;
  }

  /** In any quoting context an encoded path adds bytes that unescape to the path, and ends nothing. */
  lemma {:induction false} PathSurvives(path: Bytes, q: Quote, rest: Bytes)
    requires q != InDouble(true) && NoQuotes(path)
    ensures Lex(PathEncoded(path) + rest, q) == Onto(Printed(path, q), Lex(rest, q))
    ensures Unescaped(Printed(path, q)) == path
  {
    PrintedUnescapes(path, q);
    if path == [] {
      hide Unescaped;
      assert PathEncoded(path) + rest == rest;
      OntoBoth([], [], Lex(rest, q));
    } else {
      hide Take, PathEncode, PathCode, Unescaped, Lex, Printed, Onto, PathEncoded, NoQuotes;
      NoQuotesFirst(path);
      TakeEncoded(q, path[0]);
      PathSurvives(path[1..], q, rest);
      EncodedStep(path, rest);
      LexStep(PathEncoded(path) + rest, q);
      PrintedStep(path, q);
      OntoBoth(Take(q, PathEncode(path[0])).out, Printed(path[1..], q), Lex(rest, q));
    }
  }
}
