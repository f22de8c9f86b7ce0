/** Package files as they are written: what parsing one reads back, with comments, blanks and escapes anywhere. */
module PcText {
  import opened Bytes
  import opened PcFile

  // ---------- values ----------

  /** Escaped newlines, each with or without a carriage return. */
  function Splices(crs: seq<bool>): Bytes {
    if crs == [] then []
    else (if crs[0] then [BACKSLASH, RETURN, NEWLINE] else [BACKSLASH, NEWLINE]) + Splices(crs[1..])
  }

  function Piece(c: u8): Bytes {
    if c == HASH then [BACKSLASH, HASH] else [c]
  }

  /** A value's text: hash signs escaped, and any escaped newlines between its bytes. */
  function Spelled(value: Bytes, gaps: seq<seq<bool>>): Bytes
    requires |gaps| >= |value|
  {
    if value == [] then []
    else if |value| == 1 then Piece(value[0])
    else Piece(value[0]) + Splices(gaps[0]) + Spelled(value[1..], gaps[1..])
  }

  predicate Trimmed(s: Bytes) {
    s != [] ==> !Whitespace(s[0]) && !Whitespace(s[|s| - 1])
  }

  predicate GoodName(name: Bytes) {
    && name != [] && Trimmed(name) && name[0] != HASH
    && NEWLINE !in name && EQUALS !in name && COLON !in name
  }

  predicate GoodValue(value: Bytes) {
    && Trimmed(value) && NEWLINE !in value
    && (value != [] ==> value[|value| - 1] != BACKSLASH)
  }

  /** The same for the rest of a value, which may start with a blank. */
  predicate GoodRest(value: Bytes) {
    && NEWLINE !in value
    && (value != [] ==> !Whitespace(value[|value| - 1]) && value[|value| - 1] != BACKSLASH)
  }

  datatype Binding = Binding(stop: u8, name: Bytes, value: Bytes, gaps: seq<seq<bool>>)

  predicate GoodBinding(b: Binding) {
    && (b.stop == EQUALS || b.stop == COLON)
    && GoodName(b.name) && GoodValue(b.value) && |b.gaps| >= |b.value|
  }

  /** Binding one after the other; the first repetition is the error. */
  function BoundAll(p: Parsed, bs: seq<Binding>): Result<Parsed, ParseError>
    decreases |bs|
  {
    if bs == [] then Ok(p)
    else
      match Bound(p, bs[0].stop, bs[0].name, bs[0].value)
      case Err(e) => Err(e)
      case Ok(q) => BoundAll(q, bs[1..])
  }

  // ---------- reading back a value ----------

  /** What follows a byte of the value in its text never completes an escape with it. */
  lemma SpelledNext(value: Bytes, gaps: seq<seq<bool>>)
    requires |gaps| >= |value| && value != [] && GoodRest(value)
    ensures Spelled(value, gaps) != []
    ensures Spelled(value, gaps)[0] == BACKSLASH || Spelled(value, gaps)[0] == value[0]
    ensures Spelled(value, gaps)[0] != HASH && Spelled(value, gaps)[0] != NEWLINE
  {
    assert value[0] in value;
  }

  lemma SplicesNext(crs: seq<bool>)
    requires crs != []
    ensures Splices(crs) != [] && Splices(crs)[0] == BACKSLASH
  {
  }

  /** The text after the first byte's piece. */
  function Following(value: Bytes, gaps: seq<seq<bool>>): Bytes
    requires |gaps| >= |value| > 0
  {
    if |value| == 1 then [] else Splices(gaps[0]) + Spelled(value[1..], gaps[1..])
  }

  lemma SpelledSplit(value: Bytes, gaps: seq<seq<bool>>)
    requires |gaps| >= |value| > 0
    ensures Spelled(value, gaps) == Piece(value[0]) + Following(value, gaps)
  {
    if |value| == 1 {
      assert Piece(value[0]) + [] == Piece(value[0]);
    } else {
      assert Piece(value[0]) + Splices(gaps[0]) + Spelled(value[1..], gaps[1..])
        == Piece(value[0]) + (Splices(gaps[0]) + Spelled(value[1..], gaps[1..]));
    }
  }

  lemma GoodTail(value: Bytes)
    requires GoodRest(value) && |value| > 1
    ensures GoodRest(value[1..])
  {
    assert value[1..][|value| - 2] == value[|value| - 1];
  }

  /** A backslash of the value escapes nothing in the text. */
  lemma BackslashAlone(value: Bytes, gaps: seq<seq<bool>>, rest: Bytes)
    requires |gaps| >= |value| && value != [] && GoodRest(value) && value[0] == BACKSLASH
    ensures var s := Spelled(value, gaps) + rest;
      |s| >= 2 && s[0] == BACKSLASH && s[1] != HASH && EscapeLength(s) == 0
  {
    hide Spelled, Splices, GoodRest;
    SpelledSplit(value, gaps);
    LongerThanBackslash(value);
    GoodTail(value);
    SpelledNext(value[1..], gaps[1..]);
    var t := Following(value, gaps) + rest;
    if gaps[0] != [] {
      SplicesNext(gaps[0]);
    } else {
      SplicesNone();
      assert Following(value, gaps) == Spelled(value[1..], gaps[1..]);
      if value[1] == RETURN {
        LongerThanReturn(value);
        ReturnAlone(value[1..], gaps[1..], rest);
      }
    }
    NoEscape(t);
    assert Spelled(value, gaps) + rest == [BACKSLASH] + t;
  }

  lemma SplicesNone()
    ensures Splices([]) == []
  {
  }

  lemma LongerThanBackslash(value: Bytes)
    requires value != [] && GoodRest(value) && value[0] == BACKSLASH
    ensures |value| > 1
  {
  }

  lemma LongerThanReturn(value: Bytes)
    requires |value| > 1 && GoodRest(value) && value[1] == RETURN
    ensures |value| > 2
  {
  }

  lemma NoEscape(t: Bytes)
    requires t != [] && t[0] != NEWLINE && t[0] != HASH
    requires t[0] == RETURN ==> |t| >= 2 && t[1] != NEWLINE
    ensures EscapeLength([BACKSLASH] + t) == 0
  {
  }

  /** A carriage return of the value is not followed by a newline. */
  lemma ReturnAlone(value: Bytes, gaps: seq<seq<bool>>, rest: Bytes)
    requires |gaps| >= |value| && |value| > 1 && GoodRest(value) && value[0] == RETURN
    ensures var s := Spelled(value, gaps) + rest; |s| >= 2 && s[0] == RETURN && s[1] != NEWLINE
  {
    SpelledSplit(value, gaps);
    GoodTail(value);
    SpelledNext(value[1..], gaps[1..]);
    if gaps[0] != [] {
      SplicesNext(gaps[0]);
    }
  }

  lemma {:induction false} StrippedSplices(crs: seq<bool>, rest: Bytes)
    ensures Stripped(Splices(crs) + rest) == Stripped(rest)
    decreases |crs|
  {
    if crs == [] {
      assert Splices(crs) + rest == rest;
    } else {
      var more := Splices(crs[1..]) + rest;
      var s := Splices(crs) + rest;
      assert s == (if crs[0] then [BACKSLASH, RETURN, NEWLINE] else [BACKSLASH, NEWLINE]) + more;
      assert s[EscapeLength(s)..] == more;
      StrippedSplices(crs[1..], rest);
    }
  }

  lemma StripByte(c: u8, f: Bytes)
    requires c == BACKSLASH ==> EscapeLength([c] + f) == 0 && (f != [] ==> f[0] != HASH)
    ensures Stripped([c] + f) == [c] + Stripped(f)
  {
    hide EscapeLength;
    assert ([c] + f)[1..] == f;
  }

  lemma StripHash(f: Bytes)
    ensures Stripped([BACKSLASH, HASH] + f) == [HASH] + Stripped(f)
  {
    var s := [BACKSLASH, HASH] + f;
    assert s[1..] == [HASH] + f;
    StripByte(HASH, f);
  }

  /** The first byte of a value is stripped from its piece, whatever follows in the text. */
  lemma StripPiece(value: Bytes, gaps: seq<seq<bool>>)
    requires |gaps| >= |value| > 0 && GoodRest(value)
    ensures Stripped(Spelled(value, gaps)) == [value[0]] + Stripped(Following(value, gaps))
  {
    hide Stripped, Spelled, Following, EscapeLength, GoodRest;
    SpelledSplit(value, gaps);
    var f := Following(value, gaps);
    if value[0] == HASH {
      StripHash(f);
    } else {
      if value[0] == BACKSLASH {
        BackslashAlone(value, gaps, []);
        assert Spelled(value, gaps) + [] == Spelled(value, gaps);
      }
      StripByte(value[0], f);
    }
  }

  /** Stripping a value's text gives back the value. */
  lemma {:induction false} StrippedSpelled(value: Bytes, gaps: seq<seq<bool>>)
    requires |gaps| >= |value| && GoodRest(value)
    ensures Stripped(Spelled(value, gaps)) == value
    decreases |value|
  {
    if value == [] {
      StripEnds();
    } else {
      hide Stripped, Spelled, Splices, GoodRest;
      StripPiece(value, gaps);
      if |value| > 1 {
        GoodTail(value);
        StrippedSpelled(value[1..], gaps[1..]);
        StrippedSplices(gaps[0], Spelled(value[1..], gaps[1..]));
      } else {
        StripEnds();
      }
      assert value == [value[0]] + value[1..];
    }
  }

  lemma {:induction false} ScanSplices(crs: seq<bool>, t: Bytes)
    ensures var v, w := ScanValue(Splices(crs) + t), ScanValue(t);
      && v.rest == w.rest && v.cleanup == (crs != [] || w.cleanup)
      && v.keep == if w.keep > 0 then |Splices(crs)| + w.keep else 0
    decreases |crs|
  {
    if crs == [] {
      assert Splices(crs) + t == t;
    } else {
      var more := Splices(crs[1..]) + t;
      var s := Splices(crs) + t;
      assert s == (if crs[0] then [BACKSLASH, RETURN, NEWLINE] else [BACKSLASH, NEWLINE]) + more;
      assert s[EscapeLength(s)..] == more;
      ScanSplices(crs[1..], t);
    }
  }

  /** One byte of a value, whatever follows in its text. */
  lemma ScanPiece(value: Bytes, gaps: seq<seq<bool>>, rest: Bytes)
    requires |gaps| >= |value| && value != [] && GoodRest(value)
    ensures var v, w := ScanValue(Spelled(value, gaps) + rest), ScanValue(Following(value, gaps) + rest);
      && v.rest == w.rest
      && v.cleanup == (value[0] == HASH || w.cleanup)
      && (w.keep > 0 ==> v.keep == |Piece(value[0])| + w.keep)
      && (w.keep == 0 && !Whitespace(value[0]) && value[0] != BACKSLASH ==> v.keep == |Piece(value[0])|)
  {
    hide Spelled, Following, EscapeLength;
    var t := Following(value, gaps) + rest;
    SpelledSplit(value, gaps);
    var s := Spelled(value, gaps) + rest;
    assert s == Piece(value[0]) + t;
    assert s[|Piece(value[0])|..] == t;
    assert value[0] in value;
    if value[0] == BACKSLASH {
      BackslashAlone(value, gaps, rest);
    }
  }

  /** Scanning a value's text ends with its last byte, and sees whether there is anything to strip. */
  lemma {:induction false} ScanSpelled(value: Bytes, gaps: seq<seq<bool>>, rest: Bytes)
    requires |gaps| >= |value| && value != [] && GoodRest(value) && ScanValue(rest).keep == 0
    ensures var v := ScanValue(Spelled(value, gaps) + rest);
      && v.keep == |Spelled(value, gaps)| && v.rest == ScanValue(rest).rest
      && (!v.cleanup ==> Spelled(value, gaps) == value)
    decreases |value|
  {
    hide ScanValue, Spelled, Splices, GoodRest, Piece, EscapeLength;
    if |value| == 1 {
      ScanOne(value, gaps, rest);
    } else {
      GoodTail(value);
      var tail := Spelled(value[1..], gaps[1..]);
      ScanSpelled(value[1..], gaps[1..], rest);
      ScanMore(value, gaps, rest);
    }
  }

  /** The last byte of a value. */
  lemma ScanOne(value: Bytes, gaps: seq<seq<bool>>, rest: Bytes)
    requires |gaps| >= |value| == 1 && GoodRest(value) && ScanValue(rest).keep == 0
    ensures var v := ScanValue(Spelled(value, gaps) + rest);
      && v.keep == |Spelled(value, gaps)| && v.rest == ScanValue(rest).rest
      && (!v.cleanup ==> Spelled(value, gaps) == value)
  {
    hide ScanValue;
    ScanPiece(value, gaps, rest);
    assert [] + rest == rest;
    assert value == [value[0]];
  }

  /** A byte, any escaped newlines, and a rest that is read back. */
  lemma ScanMore(value: Bytes, gaps: seq<seq<bool>>, rest: Bytes)
    requires |gaps| >= |value| > 1 && GoodRest(value)
    requires var tail := Spelled(value[1..], gaps[1..]); var v := ScanValue(tail + rest);
      v.keep == |tail| && v.rest == ScanValue(rest).rest && (!v.cleanup ==> tail == value[1..])
    ensures var v := ScanValue(Spelled(value, gaps) + rest);
      && v.keep == |Spelled(value, gaps)| && v.rest == ScanValue(rest).rest
      && (!v.cleanup ==> Spelled(value, gaps) == value)
  {
    hide ScanValue, Spelled, Splices, GoodRest, EscapeLength, Following, Piece;
    GoodTail(value);
    var tail := Spelled(value[1..], gaps[1..]);
    SpelledNext(value[1..], gaps[1..]);
    ScanPiece(value, gaps, rest);
    ScanSplices(gaps[0], tail + rest);
    SpelledParts(value, gaps);
    assert Splices(gaps[0]) + tail + rest == Splices(gaps[0]) + (tail + rest);
    if gaps[0] == [] && value[0] != HASH && tail == value[1..] {
      PlainParts(value, tail);
    }
  }

  lemma SpelledParts(value: Bytes, gaps: seq<seq<bool>>)
    requires |gaps| >= |value| > 1
    ensures var tail := Spelled(value[1..], gaps[1..]);
      && Following(value, gaps) == Splices(gaps[0]) + tail
      && Spelled(value, gaps) == Piece(value[0]) + (Splices(gaps[0]) + tail)
      && (gaps[0] == [] && value[0] != HASH ==> Spelled(value, gaps) == [value[0]] + tail)
  {
    hide Spelled;
    SpelledSplit(value, gaps);
    SplicesNone();
    var tail := Spelled(value[1..], gaps[1..]);
    assert [] + tail == tail;
  }

  lemma PlainParts(value: Bytes, tail: Bytes)
    requires value != [] && tail == value[1..]
    ensures [value[0]] + tail == value
  {
  }

  // ---------- entries of a file ----------

  /** A blank within a line, or an escaped newline. */
  datatype Gap = Blank(c: u8) | Splice(cr: bool)

  predicate BlankByte(c: u8) { Whitespace(c) && c != NEWLINE }

  predicate Blanks(s: Bytes) { forall i :: 0 <= i < |s| ==> BlankByte(s[i]) }

  predicate GoodGaps(gs: seq<Gap>) { forall i :: 0 <= i < |gs| ==> gs[i].Blank? ==> BlankByte(gs[i].c) }

  function GapText(g: Gap): Bytes {
    match g
    case Blank(c) => [c]
    case Splice(cr) => if cr then [BACKSLASH, RETURN, NEWLINE] else [BACKSLASH, NEWLINE]
  }

  function GapsText(gs: seq<Gap>): Bytes {
    if gs == [] then [] else GapText(gs[0]) + GapsText(gs[1..])
  }

  /** A comment to the end of the line, if there is one. */
  function CommentText(comment: Option<Bytes>): Bytes {
    match comment
    case None => []
    case Some(text) => [HASH] + text
  }

  predicate GoodComment(comment: Option<Bytes>) { comment.Some? ==> NEWLINE !in comment.value }

  /** A line with at most blanks and a comment; one that says nothing, having neither an equals sign nor a colon; and
      one that binds, with blanks around the name, and blanks and escaped newlines around the value. */
  datatype Entry =
    | Empty(blanks: Bytes, comment: Option<Bytes>)
    | Noise(blanks: Bytes, text: Bytes)
    | Binds(blanks: Bytes, b: Binding, after: Bytes, lead: seq<Gap>, trail: seq<Gap>, comment: Option<Bytes>)

  predicate GoodEntry(e: Entry) {
    && Blanks(e.blanks)
    && match e
       case Empty(_, comment) => GoodComment(comment)
       case Noise(_, text) =>
         && text != [] && !Whitespace(text[0]) && text[0] != HASH
         && NEWLINE !in text && EQUALS !in text && COLON !in text
       case Binds(_, b, after, lead, trail, comment) =>
         GoodBinding(b) && Blanks(after) && GoodGaps(lead) && GoodGaps(trail) && GoodComment(comment)
  }

  function ValueBody(e: Entry): Bytes
    requires e.Binds? && GoodBinding(e.b)
  {
    Spelled(e.b.value, e.b.gaps) + (GapsText(e.trail) + CommentText(e.comment))
  }

  /** A line without its newline. */
  function Body(e: Entry): Bytes
    requires GoodEntry(e)
  {
    match e
    case Empty(blanks, comment) => blanks + CommentText(comment)
    case Noise(blanks, text) => blanks + text
    case Binds(blanks, b, after, lead, trail, comment) =>
      blanks + (b.name + after + [b.stop] + (GapsText(lead) + ValueBody(e)))
  }

  /** Lines, each ended by a newline, and perhaps a last one that is not. */
  function FileText(es: seq<Entry>, last: Option<Entry>): Bytes
    requires (forall i :: 0 <= i < |es| ==> GoodEntry(es[i])) && (last.Some? ==> GoodEntry(last.value))
  {
    if es == [] then if last.Some? then Body(last.value) else []
    else Body(es[0]) + ([NEWLINE] + FileText(es[1..], last))
  }

  /** The bindings among the lines. */
  function BindingsOf(es: seq<Entry>): seq<Binding> {
    if es == [] then [] else (if es[0].Binds? then [es[0].b] else []) + BindingsOf(es[1..])
  }

  function Entries(es: seq<Entry>, last: Option<Entry>): seq<Entry> {
    if last.Some? then es + [last.value] else es
  }

  // ---------- reading back an entry ----------

  /** The end of the text, or of a line. */
  predicate Ends(end: Bytes) { end != [] ==> end[0] == NEWLINE }

  /** Parsing starts at the first byte that is no white space. */
  lemma ParseSame(s: Bytes, t: Bytes, p: Parsed)
    requires AfterBlanks(s) == AfterBlanks(t)
    ensures Parse(s, p) == Parse(t, p)
  {
    hide AfterBlanks, ScanName, ScanValue, AfterLead, ValueText, Bound, AfterLine;
  }

  lemma {:induction false} BlanksBefore(blanks: Bytes, s: Bytes)
    requires Blanks(blanks)
    ensures AfterBlanks(blanks + s) == AfterBlanks(s)
    decreases |blanks|
  {
    if blanks == [] {
      assert blanks + s == s;
    } else {
      assert (blanks + s)[1..] == blanks[1..] + s;
      BlanksBefore(blanks[1..], s);
    }
  }

  /** What follows a line, from its newline on or behind it. */
  function Beyond(end: Bytes): Bytes { if end == [] then [] else end[1..] }

  lemma BeyondSame(end: Bytes, p: Parsed)
    requires Ends(end)
    ensures Parse(Beyond(end), p) == Parse(end, p)
  {
    ParseSame(Beyond(end), end, p);
  }

  lemma {:induction false} LineEnds(text: Bytes, end: Bytes)
    requires NEWLINE !in text && Ends(end)
    ensures AfterLine(text + end) == Beyond(end)
    decreases |text|
  {
    if text == [] {
      assert text + end == end;
    } else {
      assert text[0] in text && (text + end)[1..] == text[1..] + end;
      LineEnds(text[1..], end);
    }
  }

  lemma CommentSkipped(text: Bytes, end: Bytes, p: Parsed)
    requires NEWLINE !in text && Ends(end)
    ensures Parse([HASH] + text + end, p) == Parse(end, p)
  {
    hide AfterLine, ScanName, ScanValue, AfterLead, ValueText, Bound;
    var s := [HASH] + text + end;
    assert NEWLINE !in [HASH] + text;
    LineEnds([HASH] + text, end);
    assert AfterBlanks(s) == s;
    BeyondSame(end, p);
  }

  lemma {:induction false} NoiseRead(text: Bytes, end: Bytes)
    requires NEWLINE !in text && EQUALS !in text && COLON !in text && Ends(end)
    ensures var n := ScanName(text + end); n.rest == Beyond(end) && n.stop == if end == [] then None else Some(NEWLINE)
    decreases |text|
  {
    if text == [] {
      assert text + end == end;
    } else {
      assert text[0] in text && (text + end)[1..] == text[1..] + end;
      NoiseRead(text[1..], end);
    }
  }

  lemma NoiseSkipped(text: Bytes, end: Bytes, p: Parsed)
    requires text != [] && !Whitespace(text[0]) && text[0] != HASH && Ends(end)
    requires NEWLINE !in text && EQUALS !in text && COLON !in text
    ensures Parse(text + end, p) == Parse(end, p)
  {
    hide AfterLine, ScanName, ScanValue, AfterLead, ValueText, Bound;
    NoiseRead(text, end);
    var s := text + end;
    assert AfterBlanks(s) == s;
    BeyondSame(end, p);
    ParseNothing(p);
  }

  lemma ParseNothing(p: Parsed)
    ensures Parse([], p) == Ok(p)
  {
  }

  // ---------- around a value ----------

  lemma GapLead(g: Gap, s: Bytes)
    requires g.Blank? ==> BlankByte(g.c)
    ensures AfterLead(GapText(g) + s) == AfterLead(s)
  {
    var t := GapText(g) + s;
    assert t[|GapText(g)|..] == s;
  }

  lemma GapsSplit(gs: seq<Gap>, s: Bytes)
    requires gs != []
    ensures GapsText(gs) + s == GapText(gs[0]) + (GapsText(gs[1..]) + s)
  {
    hide GapText;
    assert GapText(gs[0]) + GapsText(gs[1..]) + s == GapText(gs[0]) + (GapsText(gs[1..]) + s);
  }

  lemma {:induction false} GapsLead(gs: seq<Gap>, s: Bytes)
    requires GoodGaps(gs)
    ensures AfterLead(GapsText(gs) + s) == AfterLead(s)
    decreases |gs|
  {
    if gs == [] {
      assert GapsText(gs) + s == s;
    } else {
      hide AfterLead, GapText, GapsText, BlankByte;
      GapLead(gs[0], GapsText(gs[1..]) + s);
      GapsLead(gs[1..], s);
      GapsSplit(gs, s);
    }
  }

  lemma GapScan(g: Gap, s: Bytes)
    requires (g.Blank? ==> BlankByte(g.c)) && ScanValue(s).keep == 0
    ensures var v := ScanValue(GapText(g) + s); v.keep == 0 && v.rest == ScanValue(s).rest
  {
    var t := GapText(g) + s;
    assert t[|GapText(g)|..] == s;
  }

  lemma {:induction false} GapsScan(gs: seq<Gap>, s: Bytes)
    requires GoodGaps(gs) && ScanValue(s).keep == 0
    ensures var v := ScanValue(GapsText(gs) + s); v.keep == 0 && v.rest == ScanValue(s).rest
    decreases |gs|
  {
    if gs == [] {
      assert GapsText(gs) + s == s;
    } else {
      hide ScanValue, GapText, GapsText, BlankByte;
      GapsScan(gs[1..], s);
      GapScan(gs[0], GapsText(gs[1..]) + s);
      GapsSplit(gs, s);
    }
  }

  /** A value stops where the line does or at a comment, and reading goes on behind the line either way. */
  lemma CommentStops(comment: Option<Bytes>, end: Bytes)
    requires GoodComment(comment) && Ends(end)
    ensures var s := CommentText(comment) + end;
      && ScanValue(s) == Value(0, false, if comment == None then end else Beyond(end))
      && AfterLead(s) == s
  {
    if comment == None {
      assert CommentText(comment) + end == end;
    } else {
      var s := [HASH] + comment.value + end;
      assert NEWLINE !in [HASH] + comment.value;
      LineEnds([HASH] + comment.value, end);
      hide AfterLine;
    }
  }

  lemma SpelledStarts(value: Bytes, gaps: seq<seq<bool>>, rest: Bytes)
    requires |gaps| >= |value| > 0 && GoodValue(value)
    ensures AfterLead(Spelled(value, gaps) + rest) == Spelled(value, gaps) + rest
  {
    hide EscapeLength, AfterLead, Spelled, Following;
    SpelledSplit(value, gaps);
    var s := Spelled(value, gaps) + rest;
    assert s[0] == Piece(value[0])[0];
    assert value[0] in value;
    if value[0] == BACKSLASH {
      GoodValueRest(value);
      BackslashAlone(value, gaps, rest);
    } else if value[0] == HASH {
      assert s == [BACKSLASH, HASH] + (Following(value, gaps) + rest);
      HashAlone(s);
    }
    LeadStops(s);
  }

  lemma HashAlone(s: Bytes)
    requires |s| >= 2 && s[0] == BACKSLASH && s[1] == HASH
    ensures EscapeLength(s) == 0
  {
  }

  lemma LeadStops(s: Bytes)
    requires s != [] && !Whitespace(s[0]) && (s[0] == BACKSLASH ==> EscapeLength(s) == 0)
    ensures AfterLead(s) == s
  {
  }

  /** The value of a binding is read back from its text, with what is around it. */
  lemma BodyReads(e: Entry, end: Bytes)
    requires e.Binds? && GoodEntry(e) && Ends(end)
    ensures var text := AfterLead(GapsText(e.lead) + (ValueBody(e) + end));
      && ValueText(text) == e.b.value
      && ScanValue(text).rest == if e.comment == None then end else Beyond(end)
  {
    hide AfterLead, ScanValue, Stripped, Spelled, GapsText, GoodValue, CommentText;
    var value, tail := e.b.value, CommentText(e.comment) + end;
    var rest := GapsText(e.trail) + tail;
    CommentStops(e.comment, end);
    GapsScan(e.trail, tail);
    GapsLead(e.lead, ValueBody(e) + end);
    BodySplits(e, end);
    if value == [] {
      GapsLead(e.trail, tail);
      assert ScanValue(tail).keep == 0;
    } else {
      SpelledStarts(value, e.b.gaps, rest);
      GoodValueRest(value);
      ScanSpelled(value, e.b.gaps, rest);
      StrippedSpelled(value, e.b.gaps);
      var s := Spelled(value, e.b.gaps) + rest;
      assert s[..|Spelled(value, e.b.gaps)|] == Spelled(value, e.b.gaps);
    }
  }

  lemma GoodValueRest(value: Bytes)
    requires GoodValue(value)
    ensures GoodRest(value)
  {
  }

  lemma BodySplits(e: Entry, end: Bytes)
    requires e.Binds? && GoodBinding(e.b)
    ensures ValueBody(e) + end == Spelled(e.b.value, e.b.gaps) + (GapsText(e.trail) + (CommentText(e.comment) + end))
    ensures e.b.value == [] ==> ValueBody(e) + end == GapsText(e.trail) + (CommentText(e.comment) + end)
  {
    var x, y, z := Spelled(e.b.value, e.b.gaps), GapsText(e.trail), CommentText(e.comment);
    assert x + (y + z) + end == x + (y + (z + end));
    if e.b.value == [] {
      assert x == [] && [] + (y + (z + end)) == y + (z + end);
    }
  }

  // ---------- a line ----------

  lemma {:induction false} BlanksAfterName(after: Bytes, stop: u8, rest: Bytes)
    requires (stop == EQUALS || stop == COLON) && Blanks(after)
    ensures ScanName(after + [stop] + rest) == Name(0, Some(stop), rest)
    decreases |after|
  {
    var s := after + [stop] + rest;
    if after == [] {
      assert s == [stop] + rest && s[1..] == rest;
    } else {
      assert s[1..] == after[1..] + [stop] + rest;
      BlanksAfterName(after[1..], stop, rest);
    }
  }

  lemma {:induction false} NameReads(name: Bytes, after: Bytes, stop: u8, rest: Bytes)
    requires (stop == EQUALS || stop == COLON) && NEWLINE !in name && EQUALS !in name && COLON !in name
    requires Blanks(after) && (name != [] ==> !Whitespace(name[|name| - 1]))
    ensures ScanName(name + after + [stop] + rest) == Name(|name|, Some(stop), rest)
    decreases |name|
  {
    var s := name + after + [stop] + rest;
    if name == [] {
      assert name + after == after;
      BlanksAfterName(after, stop, rest);
    } else {
      assert s[1..] == name[1..] + after + [stop] + rest;
      assert name[0] in name;
      assert forall c :: c in name[1..] ==> c in name;
      NameReads(name[1..], after, stop, rest);
    }
  }

  /** One round of the parser on a line that binds. */
  lemma ParseRound(s: Bytes, p: Parsed, n: Name)
    requires s != [] && !Whitespace(s[0]) && s[0] != HASH
    requires n == ScanName(s) && n.stop.Some? && n.stop.value != NEWLINE
    ensures var text := AfterLead(n.rest);
      Parse(s, p) == ParseOn(Bound(p, n.stop.value, s[..n.keep], ValueText(text)), ScanValue(text).rest)
  {
    hide ScanName, ScanValue, AfterLead, ValueText, Bound;
    assert AfterBlanks(s) == s;
  }

  lemma NameStarts(b: Binding, after: Bytes, rest: Bytes)
    requires GoodBinding(b)
    ensures var s := b.name + after + [b.stop] + rest;
      s != [] && !Whitespace(s[0]) && s[0] != HASH && s[..|b.name|] == b.name
  {
    hide GoodValue, Whitespace;
    var s := b.name + after + [b.stop] + rest;
    assert s[0] == b.name[0] && s[..|b.name|] == b.name;
  }

  lemma BindingParses(e: Entry, end: Bytes, p: Parsed)
    requires e.Binds? && GoodEntry(e) && Ends(end)
    ensures Parse(e.b.name + e.after + [e.b.stop] + (GapsText(e.lead) + (ValueBody(e) + end)), p)
      == ParseOn(Bound(p, e.b.stop, e.b.name, e.b.value), end)
  {
    hide ScanValue, ScanName, AfterLead, Known, GoodValue, ValueText, Parse, Bound, GapsText, ValueBody;
    var rest := GapsText(e.lead) + (ValueBody(e) + end);
    var s := e.b.name + e.after + [e.b.stop] + rest;
    NameStarts(e.b, e.after, rest);
    NameReads(e.b.name, e.after, e.b.stop, rest);
    BodyReads(e, end);
    ParseRound(s, p, ScanName(s));
    var bound := Bound(p, e.b.stop, e.b.name, e.b.value);
    if bound.Ok? {
      BeyondSame(end, bound.value);
    }
  }

  /** A line does to the bindings what it says, and parsing goes on behind it. */
  lemma EntryParses(e: Entry, end: Bytes, p: Parsed)
    requires GoodEntry(e) && Ends(end)
    ensures Parse(Body(e) + end, p)
      == if e.Binds? then ParseOn(Bound(p, e.b.stop, e.b.name, e.b.value), end) else Parse(end, p)
  {
    hide Parse, Bound, GoodBinding, GapsText, ValueBody, Blanks, AfterBlanks;
    match e
    case Empty(blanks, comment) =>
      BlanksBefore(blanks, CommentText(comment) + end);
      assert Body(e) + end == blanks + (CommentText(comment) + end);
      ParseSame(Body(e) + end, CommentText(comment) + end, p);
      if comment == None {
        assert CommentText(comment) + end == end;
      } else {
        CommentSkipped(comment.value, end, p);
      }
    case Noise(blanks, text) =>
      BlanksBefore(blanks, text + end);
      assert Body(e) + end == blanks + (text + end);
      ParseSame(Body(e) + end, text + end, p);
      NoiseSkipped(text, end, p);
    case Binds(blanks, b, after, lead, _, _) =>
      var name := b.name + after + [b.stop];
      var s := name + (GapsText(lead) + (ValueBody(e) + end));
      BlanksBefore(blanks, s);
      assert Body(e) + end == blanks + s;
      ParseSame(Body(e) + end, s, p);
      BindingParses(e, end, p);
  }

  /** Parsing a file binds what its lines bind, in order; the first repetition is the error. */
  lemma {:induction false} FileParses(es: seq<Entry>, last: Option<Entry>, p: Parsed)
    requires (forall i :: 0 <= i < |es| ==> GoodEntry(es[i])) && (last.Some? ==> GoodEntry(last.value))
    ensures Parse(FileText(es, last), p) == BoundAll(p, BindingsOf(Entries(es, last)))
    decreases |es|
  {
    hide Parse, Bound, GoodEntry, Body;
    ParseNothing(p);
    if es == [] {
      if last.Some? {
        LastParses(last.value, p);
        assert Entries(es, last) == [last.value];
      }
    } else {
      var rest := FileText(es[1..], last);
      var end := [NEWLINE] + rest;
      assert Entries(es, last)[1..] == Entries(es[1..], last);
      EntryParses(es[0], end, p);
      if es[0].Binds? {
        var b := es[0].b;
        var bound := Bound(p, b.stop, b.name, b.value);
        var more := BindingsOf(Entries(es[1..], last));
        assert ([b] + more)[1..] == more;
        if bound.Ok? {
          FileParses(es[1..], last, bound.value);
          BeyondSame(end, bound.value);
          assert Beyond(end) == rest;
        }
      } else {
        FileParses(es[1..], last, p);
        BeyondSame(end, p);
        assert Beyond(end) == rest;
        assert [] + BindingsOf(Entries(es[1..], last)) == BindingsOf(Entries(es[1..], last));
      }
    }
  }

  lemma LastParses(e: Entry, p: Parsed)
    requires GoodEntry(e)
    ensures Parse(Body(e), p) == BoundAll(p, BindingsOf([e]))
  {
    hide Parse, Bound, GoodEntry, Body;
    assert Body(e) + [] == Body(e);
    EntryParses(e, [], p);
    assert [e][1..] == [];
    if e.Binds? {
      var b := e.b;
      assert [b] + [] == [b] && [b][1..] == [];
      var bound := Bound(p, b.stop, b.name, b.value);
      if bound.Ok? {
        ParseNothing(bound.value);
      }
    } else {
      ParseNothing(p);
    }
  }

  // ---------- what printed bindings become ----------

  /** A variable, or a field of a known name. */
  predicate Kept(b: Binding) {
    b.stop == EQUALS || Known(b.name)
  }

  function Get(p: Parsed, stop: u8, name: Bytes): Option<Bytes> {
    if stop == EQUALS then if name in p.vars then Some(p.vars[name]) else None
    else if name in p.fields then Some(p.fields[name]) else None
  }

  predicate SameSlot(a: Binding, b: Binding) {
    a.name == b.name && (a.stop == EQUALS <==> b.stop == EQUALS)
  }

  /** The binding repeats one that `p` holds, or an earlier one of the list. */
  ghost predicate Repeats(p: Parsed, bs: seq<Binding>, i: nat)
    requires i < |bs|
  {
    Kept(bs[i]) && (Get(p, bs[i].stop, bs[i].name).Some? || exists j :: 0 <= j < i && SameSlot(bs[j], bs[i]))
  }

  function Repetition(b: Binding): ParseError {
    if b.stop == EQUALS then DuplicateVariable(b.name) else DuplicateField(b.name)
  }

  ghost predicate FirstRepeat(p: Parsed, bs: seq<Binding>, i: nat)
    requires i < |bs|
  {
    Repeats(p, bs, i) && forall j: nat :: j < i ==> !Repeats(p, bs, j)
  }

  lemma BoundStep(p: Parsed, b: Binding)
    ensures Bound(p, b.stop, b.name, b.value).Err?
      <==> Kept(b) && Get(p, b.stop, b.name).Some?
    ensures Bound(p, b.stop, b.name, b.value).Err? ==> Bound(p, b.stop, b.name, b.value).error == Repetition(b)
    ensures Bound(p, b.stop, b.name, b.value).Ok? ==>
      forall c: Binding :: Get(Bound(p, b.stop, b.name, b.value).value, c.stop, c.name)
        == if SameSlot(b, c) && Kept(b) then Some(b.value) else Get(p, c.stop, c.name)
  {
    hide Known;
  }

  /** Binding the first leaves the same repetitions in the rest. */
  lemma RepeatsShift(p: Parsed, bs: seq<Binding>, q: Parsed, i: nat)
    requires 0 < i < |bs| && Bound(p, bs[0].stop, bs[0].name, bs[0].value) == Ok(q)
    ensures Repeats(p, bs, i) <==> Repeats(q, bs[1..], i - 1)
  {
    hide Known, Bound, Get;
    BoundStep(p, bs[0]);
    var b := bs[i];
    assert bs[1..][i - 1] == b;
    if exists j :: 0 <= j < i && SameSlot(bs[j], b) {
      var j :| 0 <= j < i && SameSlot(bs[j], b);
      if j > 0 {
        assert SameSlot(bs[1..][j - 1], b);
      }
    }
    if exists j :: 0 <= j < i - 1 && SameSlot(bs[1..][j], b) {
      var j :| 0 <= j < i - 1 && SameSlot(bs[1..][j], b);
      assert SameSlot(bs[j + 1], b);
    }
  }

  /** Binding in order succeeds if and only if nothing repeats, and fails with the first name that does. */
  lemma {:induction false} BindsUnlessRepeated(p: Parsed, bs: seq<Binding>)
    ensures BoundAll(p, bs).Ok? <==> forall i: nat :: i < |bs| ==> !Repeats(p, bs, i)
    ensures BoundAll(p, bs).Err? ==>
      exists i: nat :: i < |bs| && FirstRepeat(p, bs, i) && BoundAll(p, bs).error == Repetition(bs[i])
    decreases |bs|
  {
    hide Known, Bound, Get, Repetition;
    if bs != [] {
      hide Repeats;
      BoundStep(p, bs[0]);
      FirstRepeats(p, bs);
      var bound := Bound(p, bs[0].stop, bs[0].name, bs[0].value);
      if bound.Ok? {
        var q := bound.value;
        BindsUnlessRepeated(q, bs[1..]);
        forall i: nat | 0 < i < |bs|
          ensures Repeats(p, bs, i) <==> Repeats(q, bs[1..], i - 1)
        {
          RepeatsShift(p, bs, q, i);
        }
        if BoundAll(q, bs[1..]).Err? {
          var i: nat :| i < |bs[1..]| && FirstRepeat(q, bs[1..], i) && BoundAll(q, bs[1..]).error == Repetition(bs[1..][i]);
          assert FirstRepeat(p, bs, i + 1);
          assert bs[1..][i] == bs[i + 1];
        }
      } else {
        assert FirstRepeat(p, bs, 0);
      }
    }
  }

  lemma FirstRepeats(p: Parsed, bs: seq<Binding>)
    requires bs != []
    ensures Repeats(p, bs, 0) <==> Kept(bs[0]) && Get(p, bs[0].stop, bs[0].name).Some?
  {
    hide Known, Get;
  }

  /** Each kept binding ends up with its value, and nothing else is bound. */
  lemma {:induction false} BindsExactly(p: Parsed, bs: seq<Binding>, c: Binding)
    requires BoundAll(p, bs).Ok?
    ensures forall i :: 0 <= i < |bs| && SameSlot(bs[i], c) && Kept(bs[i]) ==>
      Get(BoundAll(p, bs).value, c.stop, c.name) == Some(bs[i].value)
    ensures (forall i :: 0 <= i < |bs| ==> !SameSlot(bs[i], c) || !Kept(bs[i])) ==>
      Get(BoundAll(p, bs).value, c.stop, c.name) == Get(p, c.stop, c.name)
    decreases |bs|
  {
    hide Known, Bound, Get;
    if bs != [] {
      BoundStep(p, bs[0]);
      var q := Bound(p, bs[0].stop, bs[0].name, bs[0].value).value;
      BindsExactly(q, bs[1..], c);
      BindsUnlessRepeated(q, bs[1..]);
      var r := BoundAll(p, bs).value;
      assert r == BoundAll(q, bs[1..]).value;
      forall i | 0 <= i < |bs| && SameSlot(bs[i], c) && Kept(bs[i])
        ensures Get(r, c.stop, c.name) == Some(bs[i].value)
      {
        if i > 0 {
          assert bs[1..][i - 1] == bs[i];
        } else {
          NoneLater(q, bs, c);
          assert forall k :: 0 <= k < |bs[1..]| ==> bs[1..][k] == bs[k + 1];
        }
      }
      if forall i :: 0 <= i < |bs| ==> !SameSlot(bs[i], c) || !Kept(bs[i]) {
        assert forall i :: 0 <= i < |bs[1..]| ==> bs[1..][i] == bs[i + 1];
        assert !SameSlot(bs[0], c) || !Kept(bs[0]);
      }
    }
  }

  lemma LaterRepeats(q: Parsed, bs: seq<Binding>, c: Binding, j: nat)
    requires 0 < j < |bs| && Get(q, c.stop, c.name).Some?
    ensures SameSlot(bs[j], c) && Kept(bs[j]) ==> Repeats(q, bs[1..], j - 1)
  {
    hide Known;
    assert bs[1..][j - 1] == bs[j];
  }

  /** A name that is bound already is not bound by the rest, if nothing repeats there. */
  lemma NoneLater(q: Parsed, bs: seq<Binding>, c: Binding)
    requires bs != [] && Get(q, c.stop, c.name).Some?
    requires forall k: nat :: k < |bs[1..]| ==> !Repeats(q, bs[1..], k)
    ensures forall j :: 0 < j < |bs| ==> !(SameSlot(bs[j], c) && Kept(bs[j]))
  {
    hide Repeats, SameSlot, Kept, Get;
    forall j | 0 < j < |bs| ensures !(SameSlot(bs[j], c) && Kept(bs[j])) {
      LaterRepeats(q, bs, c, j);
    }
  }

  /**
   * The round trip: parsing a file fails with the first repeated name if its lines bind some variable or known field
   * twice; otherwise each is bound to its value, wherever blanks, comments and escaped newlines are, and nothing else is.
   */
  lemma FileReadsBack(es: seq<Entry>, last: Option<Entry>)
    requires (forall i :: 0 <= i < |es| ==> GoodEntry(es[i])) && (last.Some? ==> GoodEntry(last.value))
    ensures var bs, nothing, r := BindingsOf(Entries(es, last)), Parsed(map[], map[]), Parse(FileText(es, last), Parsed(map[], map[]));
      && (r.Ok? <==> forall i: nat :: i < |bs| ==> !Repeats(nothing, bs, i))
      && (r.Err? ==> exists i: nat :: i < |bs| && FirstRepeat(nothing, bs, i) && r.error == Repetition(bs[i]))
      && (r.Ok? ==> forall c: Binding :: BindsTo(r.value, bs, c))
  {
    hide Known, Bound, Get, Parse, BoundAll, FirstRepeat, Repeats, Repetition, SameSlot, Kept, BindingsOf, FileText, GoodEntry;
    var bs, nothing := BindingsOf(Entries(es, last)), Parsed(map[], map[]);
    FileParses(es, last, nothing);
    BindsUnlessRepeated(nothing, bs);
    var r := Parse(FileText(es, last), nothing);
    if r.Ok? {
      forall c: Binding
        ensures BindsTo(r.value, bs, c)
      {
        BindsExactly(nothing, bs, c);
        NothingBound(c);
      }
    }
  }

  /** The binding of one name: the kept one in the list, or none. */
  ghost predicate BindsTo(p: Parsed, bs: seq<Binding>, c: Binding) {
    && (forall i :: 0 <= i < |bs| && SameSlot(bs[i], c) && Kept(bs[i]) ==>
         Get(p, c.stop, c.name) == Some(bs[i].value))
    && ((forall i :: 0 <= i < |bs| ==> !SameSlot(bs[i], c) || !Kept(bs[i])) ==> Get(p, c.stop, c.name) == None)
  }

  lemma NothingBound(c: Binding)
    ensures Get(Parsed(map[], map[]), c.stop, c.name) == None
  {
  }
}
