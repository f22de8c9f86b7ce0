/** Substring search by a rolling 32-bit hash. */
module Search {
  import opened Bytes

  const WORD := 0x1_0000_0000
  const BASE := 257

  // ---------- arithmetic modulo the word size ----------

  lemma AddWords(x: int, k: int)
    ensures (x + WORD * k) % WORD == x % WORD
  {
  }

  lemma ModLeft(a: int, b: int)
    ensures (a % WORD) * b % WORD == a * b % WORD
  {
    var q, r := a / WORD, a % WORD;
    assert a * b == r * b + WORD * (q * b) by {
      assert (WORD * q + r) * b == WORD * (q * b) + r * b;
    }
    AddWords(r * b, q * b);
  }

  lemma ModBoth(a: int, b: int)
    ensures (a % WORD) * (b % WORD) % WORD == a * b % WORD
  {
    ModLeft(a, b % WORD);
    ModLeft(b, a);
    assert a * (b % WORD) == (b % WORD) * a && b * a == a * b;
  }

  lemma ModSum(a: int, b: int)
    ensures ((a % WORD) + b) % WORD == (a + b) % WORD
  {
    AddWords((a % WORD) + b, a / WORD);
  }

  lemma ModDifference(a: int, b: int)
    ensures ((a % WORD) - (b % WORD)) % WORD == (a - b) % WORD
  {
    AddWords((a % WORD) - (b % WORD), a / WORD - b / WORD);
  }

  function Power(b: int, n: nat): int { if n == 0 then 1 else b * Power(b, n - 1) }

  lemma {:induction false} PowerSquare(b: int, n: nat)
    ensures Power(b * b, n) == Power(b, 2 * n)
  {
    if n > 0 {
      PowerSquare(b, n - 1);
      var p := Power(b, 2 * (n - 1));
      assert Power(b, 2 * n - 1) == b * p;
      assert Power(b, 2 * n) == b * (b * p);
      assert b * (b * p) == b * b * p;
    }
  }

  lemma SameProduct(b: int, p: int, q: int)
    requires p % WORD == q % WORD
    ensures (b % WORD) * p % WORD == b * q % WORD
  {
    ModBoth(b % WORD, p);
    ModBoth(b, q);
  }

  lemma {:induction false} PowerMod(b: int, n: nat)
    ensures Power(b % WORD, n) % WORD == Power(b, n) % WORD
  {
    if n > 0 {
      PowerMod(b, n - 1);
      SameProduct(b, Power(b % WORD, n - 1), Power(b, n - 1));
    }
  }

  // ---------- the hash ----------

  /** The polynomial whose value modulo the word size is the hash of a window. */
  function Polynomial(s: Bytes): nat {
    if s == [] then 0 else Polynomial(s[..|s| - 1]) * BASE + s[|s| - 1] as nat
  }

  lemma {:induction false} PolynomialFront(s: Bytes)
    requires s != []
    ensures Polynomial(s) == s[0] as nat * Power(BASE, |s| - 1) + Polynomial(s[1..])
    decreases |s|
  {
    if |s| > 1 {
      var k := |s| - 1;
      PolynomialFront(s[..k]);
      assert s[1..][..k - 1] == s[..k][1..];
      var a := s[0] as nat;
      assert (a * Power(BASE, k - 1)) * BASE == a * (BASE * Power(BASE, k - 1));
    }
  }

  method HashOf(s: Bytes) returns (h: int)
    ensures h == Polynomial(s) % WORD
  {
    h := 0;
    for i := 0 to |s|
      invariant h == Polynomial(s[..i]) % WORD
    {
      h := Extended(s[..i], h, s[i]);
      assert s[..i + 1] == s[..i] + [s[i]];
    }
    assert s[..|s|] == s;
  }

  lemma EmptyWindow()
    ensures Polynomial([]) == 0
  {
  }

  /** One more byte enters the hash. */
  method Extended(ghost window: Bytes, hash: int, c: u8) returns (h: int)
    requires hash == Polynomial(window) % WORD
    ensures h == Polynomial(window + [c]) % WORD
  {
    h := (hash * BASE + c as int) % WORD;
    assert (window + [c])[..|window|] == window;
    ModLeft(Polynomial(window), BASE);
    ModSum(hash * BASE, c as int);
    ModSum(Polynomial(window) * BASE, c as int);
  }

  /** The oldest byte leaves the hash. */
  method Shortened(ghost window: Bytes, oldest: u8, hash: int, f: int) returns (h: int)
    requires window != [] && oldest == window[0] && hash == Polynomial(window) % WORD && f == Power(BASE, |window| - 1) % WORD
    ensures h == Polynomial(window[1..]) % WORD
  {
    h := (hash - f * oldest as int % WORD) % WORD;
    PolynomialFront(window);
    ModLeft(Power(BASE, |window| - 1), window[0] as int);
    ModDifference(Polynomial(window), Power(BASE, |window| - 1) * window[0] as int);
  }

  /** The weight of a window's first byte, by repeated squaring. */
  method Weight(n: nat) returns (f: int)
    ensures f == Power(BASE, n) % WORD
  {
    f := 1;
    var x := BASE;
    var k := n;
    while k > 0
      invariant f * Power(x, k) % WORD == Power(BASE, n) % WORD
      invariant 0 <= f < WORD
    {
      WeightStep(f, x, k);
      f := if k % 2 == 1 then f * x % WORD else f;
      x := x * x % WORD;
      k := k / 2;
    }
  }

  lemma WeightExact(f: int, x: int, k: nat)
    requires k > 0
    ensures f * Power(x, k) == (if k % 2 == 1 then f * x else f) * Power(x * x, k / 2)
  {
    PowerSquare(x, k / 2);
    if k % 2 == 1 {
      var p := Power(x, k - 1);
      assert k - 1 == 2 * (k / 2);
      assert f * (x * p) == f * x * p;
    }
  }

  lemma WeightStep(f: int, x: int, k: nat)
    requires k > 0
    ensures (if k % 2 == 1 then f * x % WORD else f) * Power(x * x % WORD, k / 2) % WORD == f * Power(x, k) % WORD
  {
    hide Power;
    WeightExact(f, x, k);
    var g := if k % 2 == 1 then f * x else f;
    PowerMod(x * x, k / 2);
    var p, q := Power(x * x % WORD, k / 2), Power(x * x, k / 2);
    ModBoth(g, p);
    ModBoth(g, q);
    ModLeft(g, p);
  }

  // ---------- the search ----------

  predicate OccursAt(haystack: Bytes, needle: Bytes, i: int) {
    0 <= i && i + |needle| <= |haystack| && haystack[i..i + |needle|] == needle
  }

  lemma OccursStarts(haystack: Bytes, needle: Bytes, i: nat)
    requires i <= |haystack|
    ensures OccursAt(haystack, needle, i) <==> needle <= haystack[i..]
  {
    if i + |needle| <= |haystack| {
      assert haystack[i..][..|needle|] == haystack[i..i + |needle|];
    }
  }

  /** The first place where the needle occurs, or the haystack's length if it does not. */
  method Find(haystack: Bytes, needle: Bytes) returns (r: nat)
    requires needle != []
    ensures r < |haystack| ==> OccursAt(haystack, needle, r)
    ensures forall j :: 0 <= j < r ==> !OccursAt(haystack, needle, j)
    ensures r <= |haystack|
  {
    hide Polynomial, Power;
    var wanted := HashOf(needle);
    var f := Weight(|needle| - 1);
    var i := 0;
    var hash := 0;
    EmptyWindow();
    while i < |needle| - 1 && i < |haystack|
      invariant i <= |haystack| && i <= |needle| - 1
      invariant hash == Polynomial(haystack[..i]) % WORD
    {
      hash := Extended(haystack[..i], hash, haystack[i]);
      assert haystack[..i + 1] == haystack[..i] + [haystack[i]];
      i := i + 1;
    }
    while i < |haystack|
      invariant i <= |haystack|
      invariant i < |haystack| ==> i >= |needle| - 1
      invariant i >= |needle| - 1 ==> hash == Polynomial(haystack[i - (|needle| - 1)..i]) % WORD
      invariant forall j :: 0 <= j <= i - |needle| ==> !OccursAt(haystack, needle, j)
    {
      var beg := i - |needle| + 1;
      ghost var window := haystack[beg..i + 1];
      assert window == haystack[beg..i] + [haystack[i]];
      hash := Extended(haystack[beg..i], hash, haystack[i]);
      OccursStarts(haystack, needle, beg);
      if hash == wanted && needle <= haystack[beg..] {
        return beg;
      }
      hash := Shortened(window, haystack[beg], hash, f);
      assert window[1..] == haystack[beg + 1..i + 1];
      i := i + 1;
    }
    r := |haystack|;
  }
}
