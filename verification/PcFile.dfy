/** Parsing package files: variables, fields, comments, escaped newlines and escaped hash signs. */
module PcFile {
  import opened Bytes

  const NEWLINE: u8 := '\n' as u8
  const RETURN: u8 := '\r' as u8
  const BACKSLASH: u8 := '\\' as u8
  const HASH: u8 := '#' as u8
  const EQUALS: u8 := '=' as u8
  const COLON: u8 := ':' as u8
  const SPACE: u8 := ' ' as u8

  function Ascii(s: string): Bytes
    requires forall i :: 0 <= i < |s| ==> s[i] < 128 as char
  {
    seq(|s|, i requires 0 <= i < |s| => s[i] as u8)
  }

  predicate Known(name: Bytes) {
    || name == Ascii("Name") || name == Ascii("Description") || name == Ascii("URL") || name == Ascii("Version")
    || name == Ascii("Requires") || name == Ascii("Requires.private") || name == Ascii("Conflicts")
    || name == Ascii("Libs") || name == Ascii("Libs.private") || name == Ascii("Cflags")
    || name == Ascii("Cflags.private")
  }

  type Bindings = map<Bytes, Bytes>

  datatype Parsed = Parsed(vars: Bindings, fields: Bindings)

  datatype ParseError = DuplicateVariable(name: Bytes) | DuplicateField(name: Bytes)

  // ---------- specification, on what is left of the text ----------

  /** The length of an escaped newline at the front, or zero. */
  function EscapeLength(s: Bytes): (n: nat)
    ensures n <= |s|
  {
    if |s| >= 2 && s[0] == BACKSLASH && s[1] == NEWLINE then 2
    else if |s| >= 3 && s[0] == BACKSLASH && s[1] == RETURN && s[2] == NEWLINE then 3
    else 0
  }

  /** What follows the first newline. */
  function AfterLine(s: Bytes): (r: Bytes)
    ensures |r| <= |s| && (s != [] ==> |r| < |s|)
  {
    if s == [] then [] else if s[0] == NEWLINE then s[1..] else AfterLine(s[1..])
  }

  /** Blanks and escaped newlines before a value. */
  function AfterLead(s: Bytes): (r: Bytes)
    ensures |r| <= |s|
    decreases |s|
  {
    if s == [] || s[0] == NEWLINE then s
    else if EscapeLength(s) > 0 then AfterLead(s[EscapeLength(s)..])
    else if Whitespace(s[0]) then AfterLead(s[1..])
    else s
  }

  /** The end of a token: `more` bytes on if later bytes belong to it, else here if this piece does. */
  function Extend(piece: nat, ends: bool, more: nat): nat {
    if more > 0 then piece + more else if ends then piece else 0
  }

  datatype Name = Name(keep: nat, stop: Option<u8>, rest: Bytes)

  /** A name up to a newline, an equals sign or a colon, without blanks at its end. */
  function ScanName(s: Bytes): (n: Name)
    ensures n.keep <= |s| - |n.rest| && (if n.stop.Some? then |n.rest| < |s| else n.rest == [])
  {
    if s == [] then Name(0, None, [])
    else if s[0] == NEWLINE || s[0] == EQUALS || s[0] == COLON then Name(0, Some(s[0]), s[1..])
    else
      var n := ScanName(s[1..]);
      n.(keep := Extend(1, !Whitespace(s[0]), n.keep))
  }

  datatype Value = Value(keep: nat, cleanup: bool, rest: Bytes)

  /** A value up to a newline or a comment; whether it holds escapes that must be taken out. */
  function ScanValue(s: Bytes): (v: Value)
    ensures v.keep <= |s| && |v.rest| <= |s|
    decreases |s|
  {
    if s == [] || s[0] == NEWLINE then Value(0, false, s)
    else if s[0] == HASH then Value(0, false, AfterLine(s))
    else if s[0] == BACKSLASH then
      if |s| >= 2 && s[1] == HASH then
        var v := ScanValue(s[2..]);
        Value(Extend(2, true, v.keep), true, v.rest)
      else if EscapeLength(s) > 0 then
        var v := ScanValue(s[EscapeLength(s)..]);
        Value(Extend(EscapeLength(s), false, v.keep), true, v.rest)
      else
        var v := ScanValue(s[1..]);
        v.(keep := Extend(1, false, v.keep))
    else
      var v := ScanValue(s[1..]);
      v.(keep := Extend(1, !Whitespace(s[0]), v.keep))
  }

  /** Takes out escaped newlines and the backslashes that escape hash signs. */
  function Stripped(s: Bytes): Bytes
    decreases |s|
  {
    if s == [] then []
    else if s[0] == BACKSLASH && EscapeLength(s) > 0 then Stripped(s[EscapeLength(s)..])
    else if s[0] == BACKSLASH && |s| > 1 && s[1] == HASH then Stripped(s[1..])
    else [s[0]] + Stripped(s[1..])
  }

  function ValueText(s: Bytes): Bytes {
    var v := ScanValue(s);
    if v.cleanup then Stripped(s[..v.keep]) else s[..v.keep]
  }

  /** A variable or a field is bound at most once; unknown fields are dropped. */
  function Bound(p: Parsed, stop: u8, name: Bytes, value: Bytes): Result<Parsed, ParseError> {
    if stop == EQUALS then
      if name in p.vars then Err(DuplicateVariable(name)) else Ok(p.(vars := p.vars[name := value]))
    else if !Known(name) then Ok(p)
    else if name in p.fields then Err(DuplicateField(name))
    else Ok(p.(fields := p.fields[name := value]))
  }

  function Parse(s: Bytes, p: Parsed): Result<Parsed, ParseError>
    decreases |s|
  {
    if s == [] then Ok(p)
    else
      var line := AfterBlanks(s);
      if line == [] then Ok(p)
      else if line[0] == HASH then Parse(AfterLine(line), p)
      else
        var n := ScanName(line);
        if n.stop == None then Ok(p)
        else if n.stop.value == NEWLINE then Parse(n.rest, p)
        else
          var text := AfterLead(n.rest);
          match Bound(p, n.stop.value, line[..n.keep], ValueText(text))
          case Err(e) => Err(e)
          case Ok(q) => Parse(ScanValue(text).rest, q)
  }

  /** Parsing goes on unless binding failed. */
  function ParseOn(bound: Result<Parsed, ParseError>, rest: Bytes): Result<Parsed, ParseError> {
    if bound.Ok? then Parse(rest, bound.value) else bound
  }

  // ---------- the scanners, over positions in the text ----------

  lemma Next(src: Bytes, p: nat)
    requires p < |src|
    ensures src[p..][0] == src[p] && src[p..][1..] == src[p + 1..] && src[p..] != []
  {
  }

  lemma Skip(src: Bytes, p: nat, n: nat)
    requires p + n <= |src|
    ensures src[p..][n..] == src[p + n..]
  {
  }

  /** The position after the first newline from `from` on. */
  method SkipLine(src: Bytes, from: nat) returns (p: nat)
    requires from <= |src|
    ensures from <= p <= |src| && (from < |src| ==> from < p)
    ensures src[p..] == AfterLine(src[from..])
  {
    p := from;
    var c: u8 := 0;
    while p < |src| && c != NEWLINE
      invariant from <= p <= |src| && (p == from ==> c != NEWLINE)
      invariant AfterLine(src[from..]) == if c == NEWLINE then src[p..] else AfterLine(src[p..])
    {
      Next(src, p);
      c := src[p];
      p := p + 1;
    }
  }

  method SkipBlanks(src: Bytes, from: nat) returns (p: nat)
    requires from <= |src|
    ensures from <= p <= |src| && src[p..] == AfterBlanks(src[from..])
  {
    p := from;
    while p < |src| && Whitespace(src[p])
      invariant from <= p <= |src| && AfterBlanks(src[p..]) == AfterBlanks(src[from..])
    {
      Next(src, p);
      p := p + 1;
    }
  }

  /** One blank or one escaped newline before a value. */
  lemma LeadStep(src: Bytes, p: nat)
    requires p < |src|
    ensures var r := EscapeLength(src[p..]);
      && (src[p] == BACKSLASH && r > 0 ==> AfterLead(src[p..]) == AfterLead(src[p + r..]))
      && (src[p] == BACKSLASH && r == 0 ==> AfterLead(src[p..]) == src[p..])
      && (src[p] == NEWLINE || (src[p] != BACKSLASH && !Whitespace(src[p])) ==> AfterLead(src[p..]) == src[p..])
      && (src[p] != NEWLINE && Whitespace(src[p]) ==> AfterLead(src[p..]) == AfterLead(src[p + 1..]))
  {
    Next(src, p);
    Skip(src, p, EscapeLength(src[p..]));
  }

  method SkipLead(src: Bytes, from: nat) returns (p: nat)
    requires from <= |src|
    ensures from <= p <= |src| && src[p..] == AfterLead(src[from..])
  {
    hide AfterLead, EscapeLength;
    p := from;
    while p < |src|
      invariant from <= p <= |src| && AfterLead(src[p..]) == AfterLead(src[from..])
      decreases |src| - p
    {
      LeadStep(src, p);
      if src[p] == BACKSLASH {
        var r := EscapeLength(src[p..]);
        if r == 0 {
          return;
        }
        p := p + r;
      } else if src[p] == NEWLINE || !Whitespace(src[p]) {
        return;
      } else {
        p := p + 1;
      }
    }
    LeadEnds();
  }

  lemma LeadEnds()
    ensures AfterLead([]) == []
  {
  }

  /** The end of a name, the byte that stopped it (zero if none did), and the position after that. */
  method SpanName(src: Bytes, beg: nat) returns (end: nat, c: u8, p: nat)
    requires beg <= |src|
    ensures beg <= end <= p <= |src|
    ensures var n := ScanName(src[beg..]);
      && end == beg + n.keep && src[p..] == n.rest
      && n.stop == if c == NEWLINE || c == EQUALS || c == COLON then Some(c) else None
    ensures beg < |src| ==> beg < p
  {
    end, c, p := beg, 0, beg;
    while p < |src|
      invariant beg <= end <= p <= |src|
      invariant c != NEWLINE && c != EQUALS && c != COLON
      invariant ScanName(src[beg..]).stop == ScanName(src[p..]).stop
      invariant ScanName(src[beg..]).rest == ScanName(src[p..]).rest
      invariant beg + ScanName(src[beg..]).keep
        == if ScanName(src[p..]).keep > 0 then p + ScanName(src[p..]).keep else end
    {
      Next(src, p);
      c := src[p];
      p := p + 1;
      if c == NEWLINE || c == EQUALS || c == COLON {
        break;
      }
      end := if Whitespace(c) then end else p;
    }
  }

  /** The position a scan from `beg` ends at, in terms of what is left at `p`. */
  ghost predicate ValueSoFar(src: Bytes, beg: nat, end: nat, cleanup: bool, p: nat)
    requires beg <= end <= p <= |src|
  {
    var v, w := ScanValue(src[beg..]), ScanValue(src[p..]);
    && v.rest == w.rest && v.cleanup == (cleanup || w.cleanup)
    && beg + v.keep == if w.keep > 0 then p + w.keep else end
  }

  /** One byte, or one escape, of a value. */
  lemma ValueStep(src: Bytes, beg: nat, end: nat, cleanup: bool, p: nat)
    requires beg <= end <= p < |src| && ValueSoFar(src, beg, end, cleanup, p)
    requires src[p] != NEWLINE && src[p] != HASH
    ensures src[p] == BACKSLASH && p + 1 < |src| && src[p + 1] == HASH ==>
      ValueSoFar(src, beg, p + 2, true, p + 2)
    ensures src[p] == BACKSLASH && EscapeLength(src[p..]) > 0 ==>
      ValueSoFar(src, beg, end, true, p + EscapeLength(src[p..]))
    ensures src[p] == BACKSLASH && !(p + 1 < |src| && src[p + 1] == HASH) && EscapeLength(src[p..]) == 0 ==>
      ValueSoFar(src, beg, end, cleanup, p + 1)
    ensures src[p] != BACKSLASH ==>
      ValueSoFar(src, beg, if Whitespace(src[p]) then end else p + 1, cleanup, p + 1)
  {
    Next(src, p);
    Skip(src, p, EscapeLength(src[p..]));
    if p + 2 <= |src| {
      Skip(src, p, 2);
    }
  }

  /** The end of a value, whether escapes must be taken out, and the position the scan stops at. */
  method SpanValue(src: Bytes, beg: nat) returns (end: nat, cleanup: bool, p: nat)
    requires beg <= |src|
    ensures beg <= end <= p <= |src|
    ensures ScanValue(src[beg..]) == Value(end - beg, cleanup, src[p..])
  {
    hide ScanValue, EscapeLength, ValueSoFar;
    end, cleanup, p := beg, false, beg;
    assert ValueSoFar(src, beg, end, cleanup, p) by { ValueStarts(src, beg); }
    while p < |src| && src[p] != NEWLINE
      invariant beg <= end <= p <= |src| && ValueSoFar(src, beg, end, cleanup, p)
      decreases |src| - p
    {
      if src[p] == HASH {
        ghost var at := p;
        p := SkipLine(src, p);
        ValueComment(src, beg, end, cleanup, at, p);
        return;
      }
      ValueStep(src, beg, end, cleanup, p);
      if src[p] == BACKSLASH {
        if p + 1 < |src| && src[p + 1] == HASH {
          p := p + 1;
          end := p + 1;
          cleanup := true;
          NoHashEscape(src, p);
        }
        var r := EscapeLength(src[p..]);
        if r > 0 {
          p := p + r - 1;
          cleanup := true;
        }
      } else {
        end := if Whitespace(src[p]) then end else p + 1;
      }
      p := p + 1;
    }
    ValueEnds(src, beg, end, cleanup, p);
  }

  lemma ValueStarts(src: Bytes, beg: nat)
    requires beg <= |src|
    ensures ValueSoFar(src, beg, beg, false, beg)
  {
  }

  lemma NoHashEscape(src: Bytes, p: nat)
    requires p < |src| && src[p] == HASH
    ensures EscapeLength(src[p..]) == 0
  {
  }

  lemma ValueComment(src: Bytes, beg: nat, end: nat, cleanup: bool, at: nat, p: nat)
    requires beg <= end <= at < |src| && at <= p <= |src| && ValueSoFar(src, beg, end, cleanup, at)
    requires src[at] == HASH && src[p..] == AfterLine(src[at..])
    ensures ScanValue(src[beg..]) == Value(end - beg, cleanup, src[p..])
  {
    Next(src, at);
  }

  lemma ValueEnds(src: Bytes, beg: nat, end: nat, cleanup: bool, p: nat)
    requires beg <= end <= p <= |src| && ValueSoFar(src, beg, end, cleanup, p)
    requires p == |src| || src[p] == NEWLINE
    ensures ScanValue(src[beg..]) == Value(end - beg, cleanup, src[p..])
  {
  }

  /** The bytes that position `i` makes up: an escaped newline, an escaping backslash, or a byte to keep. */
  lemma StripStep(s: Bytes, i: nat)
    requires i < |s|
    ensures var skip := EscapeLength(s[i..]);
      Stripped(s[i..])
        == if s[i] == BACKSLASH && skip > 0 then Stripped(s[i + skip..])
           else if s[i] == BACKSLASH && i + 1 < |s| && s[i + 1] == HASH then Stripped(s[i + 1..])
           else [s[i]] + Stripped(s[i + 1..])
  {
    Next(s, i);
    Skip(s, i, EscapeLength(s[i..]));
  }

  /** Copies into a buffer, leaving the escapes out. */
  method StripEscapes(s: Bytes) returns (r: Bytes)
    ensures r == Stripped(s)
  {
    hide Stripped, EscapeLength;
    var len, c := 0, new u8[|s|];
    var i := 0;
    while i < |s|
      invariant len <= i <= |s| == c.Length
      invariant c[..len] + Stripped(s[i..]) == Stripped(s)
    {
      StripStep(s, i);
      var b := s[i];
      var skip := if b == BACKSLASH then EscapeLength(s[i..]) else 0;
      if skip > 0 {
        i := i + skip - 1;
      } else if b == BACKSLASH && i + 1 < |s| && s[i + 1] == HASH {
      } else {
        ghost var kept := c[..len];
        c[len] := b;
        len := len + 1;
        assert c[..len] == kept + [b];
        assert kept + [b] + Stripped(s[i + 1..]) == kept + ([b] + Stripped(s[i + 1..]));
      }
      i := i + 1;
    }
    StripEnds();
    r := c[..len];
    assert s[i..] == [] && r + [] == r;
  }

  lemma StripEnds()
    ensures Stripped([]) == []
  {
  }

  method ParsePackage(src: Bytes) returns (r: Result<Parsed, ParseError>)
    ensures r == Parse(src, Parsed(map[], map[]))
  {
    hide AfterLine, AfterBlanks, AfterLead, ScanName, ScanValue, Known, Stripped;
    var p := 0;
    var result := Parsed(map[], map[]);
    assert src[0..] == src;
    while p < |src|
      invariant p <= |src|
      invariant Parse(src[p..], result) == Parse(src, Parsed(map[], map[]))
      decreases |src| - p
    {
      ghost var start := src[p..];
      p := SkipBlanks(src, p);
      if p < |src| && src[p] == HASH {
        p := SkipLine(src, p);
        continue;
      }
      var beg := p;
      var end, c;
      end, c, p := SpanName(src, beg);
      assert src[beg..][..end - beg] == src[beg..end];
      var name := src[beg..end];
      if c != EQUALS && c != COLON {
        continue;
      }
      if c == EQUALS && name in result.vars {
        return Err(DuplicateVariable(name));
      }
      if c == COLON && Known(name) && name in result.fields {
        return Err(DuplicateField(name));
      }
      beg := SkipLead(src, p);
      var cleanup;
      end, cleanup, p := SpanValue(src, beg);
      assert src[beg..][..end - beg] == src[beg..end];
      var value := src[beg..end];
      if cleanup {
        value := StripEscapes(value);
      }
      if c == EQUALS {
        result := result.(vars := result.vars[name := value]);
      } else if Known(name) {
        result := result.(fields := result.fields[name := value]);
      }
    }
    r := Ok(result);
  }
}
