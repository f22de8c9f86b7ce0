/** Version strings and the order RPM-style comparison puts on them. */
module Version {
  import opened Bytes

  datatype VersOp = NoOp | LT | LTE | EQ | GTE | GT

  /** Whether a comparison result satisfies an operator. */
  predicate ValidCompare(op: VersOp, result: int)
    requires op != NoOp
  {
    match op
    case LT => result < 0
    case LTE => result <= 0
    case EQ => result == 0
    case GTE => result >= 0
    case GT => result > 0
  }

  /** What each operator asks of the version that is found, by its place in the order. */
  predicate Satisfies(op: VersOp, found: Bytes, want: Bytes) {
    || op == NoOp
    || (op == LT && Compare(found, want) < 0)
    || (op == LTE && !(Compare(want, found) < 0))
    || (op == EQ && found == want)
    || (op == GTE && !(Compare(found, want) < 0))
    || (op == GT && Compare(want, found) < 0)
  }

  /** The check on a comparison's result is what the operator asks for. */
  lemma ValidIsSatisfied(op: VersOp, found: Bytes, want: Bytes)
    requires op != NoOp
    ensures ValidCompare(op, Compare(found, want)) <==> Satisfies(op, found, want)
  {
    hide Compare;
    CompareTotal(found, want);
  }

  // ---------- specification: lexicographic order on tokens ----------

  /** A version is read as maximal digit runs and single other bytes. */
  datatype Token = Number(digits: Bytes) | Other(c: u8)

  function DigitRun(s: Bytes): (n: nat)
    ensures n <= |s|
    ensures forall i :: 0 <= i < n ==> Digit(s[i])
    ensures n < |s| ==> !Digit(s[n])
  {
    if s == [] || !Digit(s[0]) then 0 else 1 + DigitRun(s[1..])
  }

  function Tokens(s: Bytes): (ts: seq<Token>)
    ensures forall t :: t in ts ==> WellFormed(t)
  {
    if s == [] then []
    else if Digit(s[0]) then
      var n := DigitRun(s);
      [Number(s[..n])] + Tokens(s[n..])
    else
      [Other(s[0])] + Tokens(s[1..])
  }

  predicate WellFormed(t: Token) {
    match t
    case Number(d) => |d| > 0 && forall i :: 0 <= i < |d| ==> Digit(d[i])
    case Other(c) => !Digit(c)
  }

  function Sign(a: int, b: int): int {
    if a < b then -1 else if a > b then 1 else 0
  }

  function CompareBytes(a: Bytes, b: Bytes): int
    requires |a| == |b|
  {
    if a == [] then 0
    else if a[0] != b[0] then Sign(a[0] as int, b[0] as int)
    else CompareBytes(a[1..], b[1..])
  }

  function First(t: Token): u8
    requires WellFormed(t)
  {
    match t
    case Number(d) => d[0]
    case Other(c) => c
  }

  /** Digit runs compare by length and then bytewise; anything else by its first byte. */
  function CompareToken(s: Token, t: Token): int
    requires WellFormed(s) && WellFormed(t)
  {
    if s.Number? && t.Number? then
      if |s.digits| != |t.digits| then Sign(|s.digits|, |t.digits|) else CompareBytes(s.digits, t.digits)
    else
      Sign(First(s) as int, First(t) as int)
  }

  function CompareTokens(xs: seq<Token>, ys: seq<Token>): int
    requires forall t :: t in xs ==> WellFormed(t)
    requires forall t :: t in ys ==> WellFormed(t)
  {
    if xs == [] || ys == [] then Sign(|xs|, |ys|)
    else if CompareToken(xs[0], ys[0]) != 0 then CompareToken(xs[0], ys[0])
    else CompareTokens(xs[1..], ys[1..])
  }

  function Compare(a: Bytes, b: Bytes): int {
    CompareTokens(Tokens(a), Tokens(b))
  }

  // ---------- the comparison loop ----------

  method Digits(s: Bytes) returns (head: Bytes, tail: Bytes)
    ensures head == s[..DigitRun(s)] && tail == s[DigitRun(s)..]
  {
    var len := 0;
    while len < |s| && Digit(s[len])
      invariant len <= |s|
      invariant DigitRun(s) == len + DigitRun(s[len..])
    {
      len := len + 1;
    }
    head, tail := s[..len], s[len..];
  }

  lemma {:induction false} TokensOther(s: Bytes, i: nat)
    requires i < |s| && !Digit(s[i])
    ensures Tokens(s[i..]) == [Other(s[i])] + Tokens(s[i + 1..])
  {
    assert s[i..][1..] == s[i + 1..];
  }

  method CompareRuns(a: Bytes, b: Bytes) returns (r: int)
    requires |a| == |b|
    ensures r == CompareBytes(a, b) && -1 <= r <= 1
  {
    var i := 0;
    while i < |a|
      invariant i <= |a|
      invariant CompareBytes(a, b) == CompareBytes(a[i..], b[i..])
    {
      if a[i] < b[i] {
        return -1;
      } else if a[i] > b[i] {
        return 1;
      }
      i := i + 1;
    }
    r := 0;
  }

  /** Compares by a moving index into both strings; equal digit runs are cut off. */
  method CompareVersions(a: Bytes, b: Bytes) returns (r: int)
    ensures r == Compare(a, b)
    ensures -1 <= r <= 1
  {
    var va, vb := a, b;
    var i := 0;
    while i < |va| && i < |vb|
      invariant i <= |va| && i <= |vb|
      invariant Compare(a, b) == Compare(va[i..], vb[i..])
      decreases |va| - i
    {
      var x, y := va[i], vb[i];
      if !Digit(x) || !Digit(y) {
        assert Tokens(va[i..]) != [] && First(Tokens(va[i..])[0]) == x;
        assert Tokens(vb[i..]) != [] && First(Tokens(vb[i..])[0]) == y;
        if x < y {
          return -1;
        } else if x > y {
          return 1;
        }
        TokensOther(va, i);
        TokensOther(vb, i);
        i := i + 1;
      } else {
        var headA, tailA := Digits(va[i..]);
        var headB, tailB := Digits(vb[i..]);
        assert Tokens(va[i..]) == [Number(headA)] + Tokens(tailA);
        assert Tokens(vb[i..]) == [Number(headB)] + Tokens(tailB);
        if |headA| < |headB| {
          return -1;
        } else if |headA| > |headB| {
          return 1;
        }
        r := CompareRuns(headA, headB);
        if r != 0 {
          return;
        }
        va, vb := tailA, tailB;
        i := 0;
      }
    }
    r := Sign(|va|, |vb|);
  }

  // ---------- the order laws ----------

  lemma {:induction false} CompareBytesRange(a: Bytes, b: Bytes)
    requires |a| == |b|
    ensures CompareBytes(a, b) == -CompareBytes(b, a)
    ensures CompareBytes(a, b) == 0 <==> a == b
  {
    if a != [] && a[0] == b[0] {
      CompareBytesRange(a[1..], b[1..]);
      assert a == [a[0]] + a[1..] && b == [b[0]] + b[1..];
    }
  }

  lemma {:induction false} CompareBytesTransitive(a: Bytes, b: Bytes, c: Bytes)
    requires |a| == |b| == |c|
    requires CompareBytes(a, b) <= 0 && CompareBytes(b, c) <= 0
    ensures CompareBytes(a, c) <= 0
  {
    if a != [] && a[0] == b[0] == c[0] {
      CompareBytesTransitive(a[1..], b[1..], c[1..]);
    }
  }

  lemma CompareTokenRange(s: Token, t: Token)
    requires WellFormed(s) && WellFormed(t)
    ensures CompareToken(s, t) == -CompareToken(t, s)
    ensures CompareToken(s, t) == 0 <==> s == t
  {
    if s.Number? && t.Number? && |s.digits| == |t.digits| {
      CompareBytesRange(s.digits, t.digits);
    }
  }

  lemma CompareTokenTransitive(s: Token, t: Token, u: Token)
    requires WellFormed(s) && WellFormed(t) && WellFormed(u)
    requires CompareToken(s, t) <= 0 && CompareToken(t, u) <= 0
    ensures CompareToken(s, u) <= 0
  {
    if s.Number? && t.Number? && u.Number? {
      if |s.digits| == |t.digits| == |u.digits| {
        CompareBytesTransitive(s.digits, t.digits, u.digits);
      }
    } else {
      assert forall v: Token :: WellFormed(v) && v.Number? ==> Digit(First(v));
    }
  }

  lemma {:induction false} CompareTokensRange(xs: seq<Token>, ys: seq<Token>)
    requires forall t :: t in xs ==> WellFormed(t)
    requires forall t :: t in ys ==> WellFormed(t)
    ensures CompareTokens(xs, ys) == -CompareTokens(ys, xs)
    ensures CompareTokens(xs, ys) == 0 <==> xs == ys
  {
    if xs != [] && ys != [] {
      CompareTokenRange(xs[0], ys[0]);
      CompareTokensRange(xs[1..], ys[1..]);
      assert xs == [xs[0]] + xs[1..] && ys == [ys[0]] + ys[1..];
    }
  }

  lemma {:induction false} CompareTokensTransitive(xs: seq<Token>, ys: seq<Token>, zs: seq<Token>)
    requires forall t :: t in xs ==> WellFormed(t)
    requires forall t :: t in ys ==> WellFormed(t)
    requires forall t :: t in zs ==> WellFormed(t)
    requires CompareTokens(xs, ys) <= 0 && CompareTokens(ys, zs) <= 0
    ensures CompareTokens(xs, zs) <= 0
  {
    if xs != [] && ys != [] && zs != [] {
      CompareTokenTransitive(xs[0], ys[0], zs[0]);
      CompareTokenRange(xs[0], ys[0]);
      CompareTokenRange(ys[0], zs[0]);
      CompareTokenRange(xs[0], zs[0]);
      if xs[0] == zs[0] {
        CompareTokenRange(zs[0], ys[0]);
      }
      if xs[0] == ys[0] == zs[0] {
        CompareTokensTransitive(xs[1..], ys[1..], zs[1..]);
      }
    }
  }

  function Text(ts: seq<Token>): Bytes {
    if ts == [] then [] else (match ts[0] case Number(d) => d case Other(c) => [c]) + Text(ts[1..])
  }

  lemma {:induction false} TokensLoseNothing(s: Bytes)
    ensures Text(Tokens(s)) == s
  {
    hide Tokens, Text, DigitRun;
    if s == [] {
      TextNothing();
    } else {
      var n := TextStep(s);
      TokensLoseNothing(s[n..]);
      assert s == s[..n] + s[n..];
    }
  }

  lemma TextNothing()
    ensures Text(Tokens([])) == []
  {
  }

  lemma TextStep(s: Bytes) returns (n: nat)
    requires s != []
    ensures 0 < n <= |s| && Text(Tokens(s)) == s[..n] + Text(Tokens(s[n..]))
  {
    hide Tokens, Text, DigitRun, Digit;
    if Digit(s[0]) {
      n := DigitRun(s);
      NumberFits(s, n);
      NumberFirst(s, n);
      TextFirst(Number(s[..n]), Tokens(s[n..]));
    } else {
      n := 1;
      assert s == [s[0]] + s[1..];
      OtherFirst(s[0], s[1..]);
      TextFirst(Other(s[0]), Tokens(s[1..]));
    }
  }

  lemma TextFirst(t: Token, ts: seq<Token>)
    ensures Text([t] + ts) == (match t case Number(d) => d case Other(c) => [c]) + Text(ts)
  {
  }

  /** Equality, antisymmetry: the result is zero exactly on equal strings and swapping negates it. */
  lemma CompareTotal(a: Bytes, b: Bytes)
    ensures Compare(a, b) == 0 <==> a == b
    ensures Compare(a, b) == -Compare(b, a)
  {
    CompareTokensRange(Tokens(a), Tokens(b));
    TokensLoseNothing(a);
    TokensLoseNothing(b);
  }

  lemma CompareTransitive(a: Bytes, b: Bytes, c: Bytes)
    requires Compare(a, b) < 0 && Compare(b, c) < 0
    ensures Compare(a, c) < 0
  {
    CompareTokensTransitive(Tokens(a), Tokens(b), Tokens(c));
    CompareTotal(a, b);
    CompareTotal(b, c);
    CompareTotal(a, c);
    if a == c {
      assert false;
    }
  }

  // ---------- the first difference ----------

  predicate EndsInDigit(s: Bytes) { s != [] && Digit(s[|s| - 1]) }

  lemma OtherFirst(c: u8, s: Bytes)
    requires !Digit(c)
    ensures Tokens([c] + s) == [Other(c)] + Tokens(s)
  {
    assert ([c] + s)[1..] == s;
  }

  lemma NumberFirst(s: Bytes, n: nat)
    requires s != [] && Digit(s[0]) && n == DigitRun(s)
    ensures Tokens(s) == [Number(s[..n])] + Tokens(s[n..])
  {
  }

  lemma SameFirst(t: Token, a: Bytes, b: Bytes, x: Bytes, y: Bytes)
    requires WellFormed(t) && Tokens(a) == [t] + Tokens(x) && Tokens(b) == [t] + Tokens(y)
    ensures Compare(a, b) == Compare(x, y)
  {
    hide Tokens, WellFormed;
    CompareTokenRange(t, t);
    assert Tokens(a)[1..] == Tokens(x) && Tokens(b)[1..] == Tokens(y);
  }

  lemma DifferFirst(t: Token, u: Token, a: Bytes, b: Bytes, x: Bytes, y: Bytes)
    requires WellFormed(t) && WellFormed(u) && t != u
    requires Tokens(a) == [t] + Tokens(x) && Tokens(b) == [u] + Tokens(y)
    ensures Compare(a, b) == CompareToken(t, u)
  {
    hide Tokens, WellFormed, CompareToken;
    CompareTokenRange(t, u);
  }

  lemma {:induction false} RunJoins(p: Bytes, s: Bytes)
    requires DigitRun(p) == |p|
    ensures DigitRun(p + s) == |p| + DigitRun(s)
  {
    if p == [] {
      assert p + s == s;
    } else {
      assert (p + s)[1..] == p[1..] + s;
      RunJoins(p[1..], s);
    }
  }

  lemma {:induction false} RunWithin(p: Bytes, s: Bytes)
    requires DigitRun(p) < |p|
    ensures DigitRun(p + s) == DigitRun(p)
  {
    assert (p + s)[0] == p[0];
    if Digit(p[0]) {
      assert (p + s)[1..] == p[1..] + s;
      RunWithin(p[1..], s);
    }
  }

  /** A common prefix that is not all digits can be shortened. */
  lemma PrefixShortens(p: Bytes, a: Bytes, b: Bytes) returns (n: nat)
    requires p != [] && DigitRun(p) < |p|
    ensures 0 < n <= |p| && (EndsInDigit(p) <==> EndsInDigit(p[n..]))
    ensures Compare(p + a, p + b) == Compare(p[n..] + a, p[n..] + b)
  {
    if Digit(p[0]) {
      n := DigitRun(p);
      RunWithin(p, a);
      RunWithin(p, b);
      hide DigitRun, Digit, Tokens, Compare;
      NumberFirst(p + a, n);
      NumberFirst(p + b, n);
      assert (p + a)[..n] == p[..n] == (p + b)[..n];
      assert (p + a)[n..] == p[n..] + a && (p + b)[n..] == p[n..] + b;
      NumberFits(p, n);
      SameFirst(Number(p[..n]), p + a, p + b, p[n..] + a, p[n..] + b);
    } else {
      n := 1;
      hide DigitRun, Digit, Tokens, Compare;
      assert p + a == [p[0]] + (p[1..] + a) && p + b == [p[0]] + (p[1..] + b);
      OtherFirst(p[0], p[1..] + a);
      OtherFirst(p[0], p[1..] + b);
      SameFirst(Other(p[0]), p + a, p + b, p[1..] + a, p[1..] + b);
    }
  }

  lemma NumberFits(p: Bytes, n: nat)
    requires p != [] && Digit(p[0]) && n == DigitRun(p)
    ensures n > 0 && WellFormed(Number(p[..n]))
  {
  }

  lemma {:induction false} BytesDiffer(p: Bytes, a: Bytes, b: Bytes)
    requires |a| == |b| > 0 && a[0] != b[0]
    ensures CompareBytes(p + a, p + b) == Sign(a[0] as int, b[0] as int)
  {
    if p == [] {
      assert p + a == a && p + b == b;
    } else {
      assert (p + a)[1..] == p[1..] + a && (p + b)[1..] == p[1..] + b;
      BytesDiffer(p[1..], a, b);
    }
  }

  /** Who is smaller where two strings first differ: the one with the shorter digit run, if the runs both go on
      there or one goes on from digits before, else the one with the smaller byte. */
  function Decides(afterDigit: bool, a: Bytes, b: Bytes): int
    requires a != [] && b != []
  {
    var m, n := DigitRun(a), DigitRun(b);
    if m != n && (afterDigit || (m > 0 && n > 0)) then Sign(m, n) else Sign(a[0] as int, b[0] as int)
  }

  lemma DifferAtOnce(a: Bytes, b: Bytes)
    requires a != [] && b != [] && a[0] != b[0]
    ensures Compare(a, b) == Decides(false, a, b)
  {
    var m, n := DigitRun(a), DigitRun(b);
    if m > 0 && n > 0 && m == n {
      BytesDiffer([], a[..m], b[..n]);
      assert [] + a[..m] == a[..m] && [] + b[..n] == b[..n];
    }
  }

  /** Digits take in the run of digits that follows them. */
  lemma NumberJoins(p: Bytes, a: Bytes)
    requires p != [] && DigitRun(p) == |p|
    ensures var m := DigitRun(a);
      && WellFormed(Number(p + a[..m]))
      && Tokens(p + a) == [Number(p + a[..m])] + Tokens(a[m..])
  {
    hide Tokens, WellFormed;
    var k, m := |p|, DigitRun(a);
    RunJoins(p, a);
    assert (p + a)[..k + m] == p + a[..m] && (p + a)[k + m..] == a[m..];
    assert Digit(p[0]) && (p + a)[0] == p[0];
    NumberFits(p + a, k + m);
    NumberFirst(p + a, k + m);
  }

  lemma DifferAfterDigits(p: Bytes, a: Bytes, b: Bytes)
    requires p != [] && DigitRun(p) == |p| && a != [] && b != [] && a[0] != b[0]
    ensures Compare(p + a, p + b) == Decides(true, a, b)
  {
    hide Compare, Tokens, DigitRun, WellFormed;
    var m, n := DigitRun(a), DigitRun(b);
    NumberJoins(p, a);
    NumberJoins(p, b);
    if m == 0 && n == 0 {
      assert a[0..] == a && b[0..] == b && p + a[..0] == p == p + b[..0];
      SameFirst(Number(p), p + a, p + b, a, b);
      DifferAtOnce(a, b);
    } else {
      if m == n {
        BytesDiffer(p, a[..m], b[..n]);
      }
      NumbersDiffer(p + a[..m], p + b[..n], p + a, p + b, a[m..], b[n..]);
    }
  }

  lemma NumbersDiffer(d: Bytes, e: Bytes, a: Bytes, b: Bytes, x: Bytes, y: Bytes)
    requires WellFormed(Number(d)) && WellFormed(Number(e))
    requires |d| != |e| || CompareBytes(d, e) != 0
    requires Tokens(a) == [Number(d)] + Tokens(x) && Tokens(b) == [Number(e)] + Tokens(y)
    ensures Compare(a, b) == if |d| != |e| then Sign(|d|, |e|) else CompareBytes(d, e)
  {
    hide Tokens, Compare;
    if |d| == |e| {
      CompareBytesRange(d, e);
    }
    DifferFirst(Number(d), Number(e), a, b, x, y);
  }

  /** The whole order by first difference: after any common prefix, the bytes there and the digit runs they start decide. */
  lemma {:induction false} FirstDifference(p: Bytes, a: Bytes, b: Bytes)
    requires a != [] && b != [] && a[0] != b[0]
    ensures Compare(p + a, p + b) == Decides(EndsInDigit(p), a, b)
    decreases |p|
  {
    hide Compare, Decides;
    if p == [] {
      assert p + a == a && p + b == b;
      DifferAtOnce(a, b);
    } else if DigitRun(p) == |p| {
      DifferAfterDigits(p, a, b);
    } else {
      var n := PrefixShortens(p, a, b);
      FirstDifference(p[n..], a, b);
    }
  }

  /** The smaller byte decides if neither is a digit, or if one is and the common prefix does not end in a digit;
      if it does, the string in which the number goes on is greater. */
  lemma OtherDecides(p: Bytes, x: u8, s: Bytes, y: u8, t: Bytes)
    requires x != y && (!Digit(x) || !Digit(y))
    ensures !(EndsInDigit(p) && (Digit(x) || Digit(y))) ==>
      Compare(p + ([x] + s), p + ([y] + t)) == if x < y then -1 else 1
    ensures EndsInDigit(p) && Digit(x) ==> Compare(p + ([x] + s), p + ([y] + t)) == 1
    ensures EndsInDigit(p) && Digit(y) ==> Compare(p + ([x] + s), p + ([y] + t)) == -1
  {
    hide Compare, EndsInDigit;
    FirstDifference(p, [x] + s, [y] + t);
  }

  /** The smaller byte does not always decide: 1a is below 12, although 2 is the smaller byte. */
  lemma SmallerByteLoses(one: u8, two: u8, a: u8)
    requires one == '1' as u8 && two == '2' as u8 && a == 'a' as u8
    ensures two < a && Compare([one, a], [one, two]) == -1
  {
    hide Compare;
    OtherDecides([one], a, [], two, []);
    assert [one] + ([a] + []) == [one, a] && [one] + ([two] + []) == [one, two];
  }

  /** Where both have a digit, the longer run of digits from there on is greater, else the greater digit. */
  lemma DigitsDecide(p: Bytes, a: Bytes, b: Bytes)
    requires a != [] && b != [] && Digit(a[0]) && Digit(b[0]) && a[0] != b[0]
    ensures Compare(p + a, p + b)
      == if DigitRun(a) != DigitRun(b) then (if DigitRun(a) < DigitRun(b) then -1 else 1)
         else if a[0] < b[0] then -1 else 1
  {
    hide Compare, EndsInDigit;
    FirstDifference(p, a, b);
  }

  lemma RunOfNone()
    ensures DigitRun([]) == 0
  {
  }

  /** A proper prefix is smaller. */
  lemma {:induction false} PrefixSmaller(p: Bytes, s: Bytes)
    requires s != []
    ensures Compare(p, p + s) == -1
    decreases |p|
  {
    if p == [] {
      assert p + s == s;
    } else if DigitRun(p) == |p| {
      hide Compare, Tokens, DigitRun, WellFormed;
      NumberJoins(p, []);
      NumberJoins(p, s);
      var n := DigitRun(s);
      RunOfNone();
      assert p + [][..0] == p && p + [] == p;
      if n == 0 {
        assert p + s[..0] == p && s[0..] == s;
        SameFirst(Number(p), p, p + s, [], s);
        PrefixSmaller([], s);
        assert [] + s == s;
      } else {
        NumbersDiffer(p, p + s[..n], p, p + s, [], s[n..]);
      }
    } else {
      hide Compare, DigitRun;
      assert p + [] == p;
      var n := PrefixShortens(p, [], s);
      assert p[n..] + [] == p[n..];
      PrefixSmaller(p[n..], s);
    }
  }

  // ---------- dotted decimals ----------

  const DOT: u8 := '.' as u8

  function Decimal(n: nat): (d: Bytes)
    ensures WellFormed(Number(d))
  {
    if n < 10 then [n as u8 + '0' as u8] else Decimal(n / 10) + [(n % 10) as u8 + '0' as u8]
  }

  function Dotted(ns: seq<nat>): Bytes {
    if ns == [] then []
    else if |ns| == 1 then Decimal(ns[0])
    else Decimal(ns[0]) + ([DOT] + Dotted(ns[1..]))
  }

  function CompareNumbers(xs: seq<nat>, ys: seq<nat>): int {
    if xs == [] || ys == [] then Sign(|xs|, |ys|)
    else if xs[0] != ys[0] then Sign(xs[0], ys[0])
    else CompareNumbers(xs[1..], ys[1..])
  }

  lemma {:induction false} CompareBytesSnoc(a: Bytes, x: u8, b: Bytes, y: u8)
    requires |a| == |b|
    ensures CompareBytes(a + [x], b + [y])
         == if CompareBytes(a, b) != 0 then CompareBytes(a, b) else Sign(x as int, y as int)
  {
    if a == [] {
      assert a + [x] == [x] && b + [y] == [y];
    } else {
      assert (a + [x])[1..] == a[1..] + [x] && (b + [y])[1..] == b[1..] + [y];
      CompareBytesSnoc(a[1..], x, b[1..], y);
    }
  }

  lemma {:induction false} CompareDecimals(m: nat, n: nat)
    ensures CompareToken(Number(Decimal(m)), Number(Decimal(n))) == Sign(m, n)
  {
    if m >= 10 && n >= 10 {
      CompareDecimals(m / 10, n / 10);
      if |Decimal(m / 10)| == |Decimal(n / 10)| {
        CompareBytesSnoc(Decimal(m / 10), (m % 10) as u8 + '0' as u8, Decimal(n / 10), (n % 10) as u8 + '0' as u8);
      }
    } else if m < 10 && n < 10 {
      CompareBytesSnoc([], m as u8 + '0' as u8, [], n as u8 + '0' as u8);
      assert [] + Decimal(m) == Decimal(m) && [] + Decimal(n) == Decimal(n);
    }
  }

  lemma {:induction false} DigitRunOfDecimal(d: Bytes, rest: Bytes)
    requires forall i :: 0 <= i < |d| ==> Digit(d[i])
    requires rest == [] || !Digit(rest[0])
    ensures DigitRun(d + rest) == |d|
  {
    if d == [] {
      assert d + rest == rest;
    } else {
      assert (d + rest)[1..] == d[1..] + rest;
      DigitRunOfDecimal(d[1..], rest);
    }
  }

  lemma TokensOfNumber(d: Bytes, rest: Bytes)
    requires WellFormed(Number(d))
    requires rest == [] || !Digit(rest[0])
    ensures Tokens(d + rest) == [Number(d)] + Tokens(rest)
  {
    DigitRunOfDecimal(d, rest);
    assert (d + rest)[..|d|] == d && (d + rest)[|d|..] == rest;
  }

  lemma TokensOfDot(rest: Bytes)
    ensures Tokens([DOT] + rest) == [Other(DOT)] + Tokens(rest)
  {
    assert ([DOT] + rest)[1..] == rest;
  }

  lemma TokensOfNumberDot(d: Bytes, rest: Bytes)
    requires WellFormed(Number(d))
    ensures Tokens(d + ([DOT] + rest)) == [Number(d), Other(DOT)] + Tokens(rest)
  {
    hide Tokens, WellFormed;
    TokensOfNumber(d, [DOT] + rest);
    TokensOfDot(rest);
    assert [Number(d)] + ([Other(DOT)] + Tokens(rest)) == [Number(d), Other(DOT)] + Tokens(rest);
  }

  function DottedTokens(ns: seq<nat>): (ts: seq<Token>)
    ensures forall t :: t in ts ==> WellFormed(t)
    ensures ts == [] <==> ns == []
  {
    if ns == [] then []
    else if |ns| == 1 then [Number(Decimal(ns[0]))]
    else [Number(Decimal(ns[0])), Other(DOT)] + DottedTokens(ns[1..])
  }

  lemma {:induction false} TokensOfDotted(ns: seq<nat>)
    ensures Tokens(Dotted(ns)) == DottedTokens(ns)
  {
    if |ns| == 1 {
      TokensOfNumber(Decimal(ns[0]), []);
      assert Decimal(ns[0]) + [] == Decimal(ns[0]);
    } else if |ns| > 1 {
      TokensOfDotted(ns[1..]);
      TokensOfNumberDot(Decimal(ns[0]), Dotted(ns[1..]));
    }
  }

  lemma {:induction false} CompareDottedTokens(xs: seq<nat>, ys: seq<nat>)
    ensures CompareTokens(DottedTokens(xs), DottedTokens(ys)) == CompareNumbers(xs, ys)
  {
    if xs != [] && ys != [] {
      CompareDecimals(xs[0], ys[0]);
      if xs[0] == ys[0] && |xs| > 1 && |ys| > 1 {
        var tx, ty := DottedTokens(xs), DottedTokens(ys);
        assert tx[1..][1..] == DottedTokens(xs[1..]) && ty[1..][1..] == DottedTokens(ys[1..]);
        assert tx[1] == ty[1] == Other(DOT);
        CompareDottedTokens(xs[1..], ys[1..]);
      }
    }
  }

  /** On dot-joined decimals without leading zeros the order is that of the lists of numbers. */
  lemma CompareDotted(xs: seq<nat>, ys: seq<nat>)
    ensures Compare(Dotted(xs), Dotted(ys)) == CompareNumbers(xs, ys)
  {
    TokensOfDotted(xs);
    TokensOfDotted(ys);
    CompareDottedTokens(xs, ys);
  }
}
