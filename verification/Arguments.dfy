/** The list of output arguments: which occurrence of a repeated argument is printed, and how. */
module Arguments {
  import opened Bytes
  import H = HashTrie
  import Q = Dequote

  const DASH: u8 := '-' as u8
  const DASH_L: Bytes := [DASH, 'l' as u8]
  const PTHREAD: Bytes := [DASH, 'p' as u8, 't' as u8, 'h' as u8, 'r' as u8, 'e' as u8, 'a' as u8, 'd' as u8]
  const FLAGS: Bytes := ['D' as u8, 'I' as u8, 'L' as u8, 'f' as u8, 'l' as u8, 'm' as u8]

  predicate Dedupable(arg: Bytes) {
    if |arg| < 3 || arg[0] != DASH then false
    else arg == PTHREAD || arg[1] in FLAGS
  }

  predicate IsLibrary(arg: Bytes) { DASH_L <= arg }

  // ---------- the recorded positions ----------

  type Positions = map<Bytes, int>

  function Appended(m: Positions, arg: Bytes, position: nat): Positions {
    if Dedupable(arg) && (arg !in m || m[arg] == 0 || IsLibrary(arg)) then m[arg := 1 + position] else m
  }

  /** Positions after recording the exclusions and then appending a list. */
  function PositionsOf(excluded: set<Bytes>, list: seq<Bytes>): Positions {
    if list == [] then map a | a in excluded :: -1
    else
      var k := |list| - 1;
      Appended(PositionsOf(excluded, list[..k]), list[k], k)
  }

  predicate InPosition(m: Positions, arg: Bytes, position: nat) {
    arg in m ==> m[arg] == position + 1
  }

  // ---------- which occurrences are kept ----------

  /** An exclusion is forgotten again if the argument is a repeatable library. */
  predicate Excluded(excluded: set<Bytes>, arg: Bytes) {
    arg in excluded && !(Dedupable(arg) && IsLibrary(arg))
  }

  /** Not excluded, and the last of a library, the first of another repeatable, or any other argument. */
  ghost predicate Keeps(excluded: set<Bytes>, list: seq<Bytes>, i: nat)
    requires i < |list|
  {
    && !Excluded(excluded, list[i])
    && (Dedupable(list[i]) ==>
          if IsLibrary(list[i]) then forall j :: i < j < |list| ==> list[j] != list[i]
          else forall j :: 0 <= j < i ==> list[j] != list[i])
  }

  ghost predicate LastAt(list: seq<Bytes>, arg: Bytes, i: int) {
    0 <= i < |list| && list[i] == arg && arg !in list[i + 1..]
  }

  ghost predicate FirstAt(list: seq<Bytes>, arg: Bytes, i: int) {
    0 <= i < |list| && list[i] == arg && arg !in list[..i]
  }

  /** What the positions record about one argument. */
  ghost predicate Recorded(excluded: set<Bytes>, list: seq<Bytes>, m: Positions, arg: Bytes) {
    if Dedupable(arg) && IsLibrary(arg) && arg in list then arg in m && LastAt(list, arg, m[arg] - 1)
    else if arg in excluded then arg in m && m[arg] == -1
    else if Dedupable(arg) && arg in list then arg in m && FirstAt(list, arg, m[arg] - 1)
    else arg !in m
  }

  lemma LastGrows(list: seq<Bytes>, x: Bytes, arg: Bytes, i: int)
    ensures LastAt(list, arg, i) && x != arg ==> LastAt(list + [x], arg, i)
    ensures LastAt(list + [arg], arg, |list|)
  {
    assert (list + [arg])[|list| + 1..] == [];
    if LastAt(list, arg, i) {
      assert (list + [x])[i + 1..] == list[i + 1..] + [x];
    }
  }

  lemma FirstGrows(list: seq<Bytes>, x: Bytes, arg: Bytes, i: int)
    ensures FirstAt(list, arg, i) ==> FirstAt(list + [x], arg, i)
    ensures arg !in list ==> FirstAt(list + [arg], arg, |list|)
  {
    assert (list + [arg])[..|list|] == list;
    if FirstAt(list, arg, i) {
      assert (list + [x])[..i] == list[..i];
    }
  }

  /** Another argument changes nothing of what is recorded about this one. */
  lemma RecordedOther(excluded: set<Bytes>, list: seq<Bytes>, m: Positions, x: Bytes, arg: Bytes)
    requires Recorded(excluded, list, m, arg) && x != arg
    ensures Recorded(excluded, list + [x], Appended(m, x, |list|), arg)
  {
    hide Dedupable, IsLibrary, LastAt, FirstAt;
    assert arg in list + [x] <==> arg in list;
    if arg in m {
      LastGrows(list, x, arg, m[arg] - 1);
      FirstGrows(list, x, arg, m[arg] - 1);
    }
  }

  /** A repeatable library moves to the new position. */
  lemma RecordedLibrary(excluded: set<Bytes>, list: seq<Bytes>, m: Positions, arg: Bytes)
    requires Dedupable(arg) && IsLibrary(arg)
    ensures Recorded(excluded, list + [arg], Appended(m, arg, |list|), arg)
  {
    hide Dedupable, IsLibrary, LastAt;
    LastGrows(list, arg, arg, 0);
  }

  /** Any other argument stays where it was first, or excluded, or unrecorded. */
  lemma RecordedAgain(excluded: set<Bytes>, list: seq<Bytes>, m: Positions, arg: Bytes)
    requires Recorded(excluded, list, m, arg) && !(Dedupable(arg) && IsLibrary(arg))
    ensures Recorded(excluded, list + [arg], Appended(m, arg, |list|), arg)
  {
    hide Dedupable, IsLibrary;
    FirstGrows(list, arg, arg, if arg in m then m[arg] - 1 else 0);
  }

  lemma PositionsAppend(excluded: set<Bytes>, list: seq<Bytes>, arg: Bytes)
    ensures PositionsOf(excluded, list + [arg]) == Appended(PositionsOf(excluded, list), arg, |list|)
  {
    hide Dedupable, IsLibrary;
    assert (list + [arg])[..|list|] == list;
  }

  lemma PositionsNone(excluded: set<Bytes>)
    ensures PositionsOf(excluded, []) == map a | a in excluded :: -1
  {
  }

  lemma {:induction false} PositionRecorded(excluded: set<Bytes>, list: seq<Bytes>, arg: Bytes)
    ensures Recorded(excluded, list, PositionsOf(excluded, list), arg)
    decreases |list|
  {
    hide PositionsOf, Appended, Dedupable, IsLibrary;
    if list == [] {
      PositionsNone(excluded);
    } else {
      hide Recorded;
      var k := |list| - 1;
      var before, x := list[..k], list[k];
      var m := PositionsOf(excluded, before);
      assert list == before + [x];
      PositionRecorded(excluded, before, arg);
      PositionsAppend(excluded, before, x);
      if x != arg {
        RecordedOther(excluded, before, m, x, arg);
      } else if Dedupable(arg) && IsLibrary(arg) {
        RecordedLibrary(excluded, before, m, arg);
      } else {
        RecordedAgain(excluded, before, m, arg);
      }
    }
  }

  /** The check against the recorded position keeps exactly the right occurrences. */
  lemma InPositionKeeps(excluded: set<Bytes>, list: seq<Bytes>, i: nat)
    requires i < |list|
    ensures InPosition(PositionsOf(excluded, list), list[i], i) <==> Keeps(excluded, list, i)
  {
    var m := PositionsOf(excluded, list);
    var arg := list[i];
    PositionRecorded(excluded, list, arg);
    if Dedupable(arg) && arg in m && m[arg] > 0 {
      var k := m[arg] - 1;
      if IsLibrary(arg) {
        assert forall j :: k < j < |list| ==> list[j] == list[k + 1..][j - (k + 1)];
      } else {
        assert forall j :: 0 <= j < k ==> list[j] == list[..k][j];
      }
    }
  }

  /** The indices below `n` that are kept, in order. */
  ghost function KeptBelow(excluded: set<Bytes>, list: seq<Bytes>, n: nat): (r: seq<nat>)
    requires n <= |list|
    ensures forall k :: 0 <= k < |r| ==> r[k] < n
  {
    if n == 0 then []
    else KeptBelow(excluded, list, n - 1) + if Keeps(excluded, list, n - 1) then [n - 1] else []
  }

  /** The output of the first `n` positions. */
  ghost function Outputs(excluded: set<Bytes>, list: seq<Bytes>, n: nat): (r: seq<Bytes>)
    requires n <= |list|
    ensures |r| == |KeptBelow(excluded, list, n)|
  {
    var kept := KeptBelow(excluded, list, n);
    seq(|kept|, k requires 0 <= k < |kept| => list[kept[k]])
  }

  ghost function Output(excluded: set<Bytes>, list: seq<Bytes>): (r: seq<Bytes>)
    ensures |r| == |KeptBelow(excluded, list, |list|)|
  {
    Outputs(excluded, list, |list|)
  }

  lemma OutputsNone(excluded: set<Bytes>, list: seq<Bytes>)
    ensures Outputs(excluded, list, 0) == []
  {
  }

  lemma OutputsNext(excluded: set<Bytes>, list: seq<Bytes>, n: nat)
    requires n < |list|
    ensures Outputs(excluded, list, n + 1)
      == Outputs(excluded, list, n) + if Keeps(excluded, list, n) then [list[n]] else []
  {
    hide Keeps;
  }

  lemma {:induction false} KeptExactly(excluded: set<Bytes>, list: seq<Bytes>, n: nat)
    requires n <= |list|
    ensures var r := KeptBelow(excluded, list, n);
      && (forall i :: 0 <= i < n ==> (Keeps(excluded, list, i) <==> i in r))
      && (forall j, k :: 0 <= j < k < |r| ==> r[j] < r[k])
  {
    if n > 0 {
      KeptExactly(excluded, list, n - 1);
    }
  }

  /** An index of the output comes from a kept index of the list; later ones from later ones. */
  lemma OutputFrom(excluded: set<Bytes>, list: seq<Bytes>, j: nat, k: nat) returns (a: nat, b: nat)
    requires j <= k < |Output(excluded, list)|
    ensures a <= b < |list| && (j < k ==> a < b)
    ensures Keeps(excluded, list, a) && Keeps(excluded, list, b)
    ensures Output(excluded, list)[j] == list[a] && Output(excluded, list)[k] == list[b]
  {
    hide Keeps;
    var kept := KeptBelow(excluded, list, |list|);
    KeptExactly(excluded, list, |list|);
    a, b := kept[j], kept[k];
    assert a in kept && b in kept;
  }

  lemma OutputKeptWhole(excluded: set<Bytes>, list: seq<Bytes>, k: nat)
    requires k < |Output(excluded, list)|
    ensures Keeps(excluded, Output(excluded, list), k)
  {
    var out := Output(excluded, list);
    forall j | 0 <= j < |out| && j != k && Dedupable(out[k]) ensures out[j] != out[k] {
      if j < k {
        var a, b := OutputFrom(excluded, list, j, k);
      } else {
        var a, b := OutputFrom(excluded, list, k, j);
      }
    }
    var a, b := OutputFrom(excluded, list, k, k);
  }

  lemma {:induction false} KeptAll(excluded: set<Bytes>, list: seq<Bytes>, n: nat)
    requires n <= |list| && forall k :: 0 <= k < |list| ==> Keeps(excluded, list, k)
    ensures |KeptBelow(excluded, list, n)| == n
    ensures forall k :: 0 <= k < n ==> KeptBelow(excluded, list, n)[k] == k
  {
    if n > 0 {
      KeptAll(excluded, list, n - 1);
    }
  }

  /** Removing duplicates from what has none left changes nothing. */
  lemma OutputIdempotent(excluded: set<Bytes>, list: seq<Bytes>)
    ensures Output(excluded, Output(excluded, list)) == Output(excluded, list)
  {
    hide Keeps;
    var out := Output(excluded, list);
    forall k | 0 <= k < |out| ensures Keeps(excluded, out, k) {
      OutputKeptWhole(excluded, list, k);
    }
    KeptAll(excluded, out, |out|);
  }

  /** Every repeatable argument that is not excluded is printed exactly once. */
  lemma OutputOnce(excluded: set<Bytes>, list: seq<Bytes>, arg: Bytes)
    requires arg in list && Dedupable(arg) && !Excluded(excluded, arg)
    ensures exists i :: 0 <= i < |list| && list[i] == arg && Keeps(excluded, list, i)
    ensures forall i, j :: 0 <= i < j < |list| && list[i] == arg && list[j] == arg ==>
      !(Keeps(excluded, list, i) && Keeps(excluded, list, j))
  {
    if IsLibrary(arg) {
      var i := LastOf(list, arg);
      assert Keeps(excluded, list, i);
    } else {
      var i := FirstOf(list, arg);
      assert Keeps(excluded, list, i);
    }
  }

  /** A dash, a letter, and whatever follows. */
  predicate Flag(arg: Bytes, letter: char)
    requires letter < 128 as char
  {
    |arg| >= 2 && arg[0] == '-' as u8 && arg[1] == letter as u8
  }

  /** Counted once are -pthread, and the six flags with something attached. */
  lemma RepeatableFlags(arg: Bytes)
    ensures Dedupable(arg)
      <==> || arg == ['-' as u8, 'p' as u8, 't' as u8, 'h' as u8, 'r' as u8, 'e' as u8, 'a' as u8, 'd' as u8]
           || (|arg| > 2 && (Flag(arg, 'D') || Flag(arg, 'I') || Flag(arg, 'L')
               || Flag(arg, 'f') || Flag(arg, 'l') || Flag(arg, 'm')))
    ensures IsLibrary(arg) <==> Flag(arg, 'l')
  {
    if IsLibrary(arg) {
      assert DASH_L[0] == arg[0] && DASH_L[1] == arg[1];
    }
    if Flag(arg, 'l') {
      assert DASH_L == arg[..2];
    }
    assert forall c :: c in FLAGS <==>
      c == 'D' as u8 || c == 'I' as u8 || c == 'L' as u8 || c == 'f' as u8 || c == 'l' as u8 || c == 'm' as u8;
  }

  /** An argument that is not excluded is printed. */
  lemma ArgumentPrinted(excluded: set<Bytes>, list: seq<Bytes>, arg: Bytes)
    requires arg in list && !Excluded(excluded, arg)
    ensures arg in Output(excluded, list)
  {
    hide Dedupable, IsLibrary, Keeps;
    var i: nat;
    if Dedupable(arg) {
      OutputOnce(excluded, list, arg);
      i :| i < |list| && list[i] == arg && Keeps(excluded, list, i);
    } else {
      i :| i < |list| && list[i] == arg;
      KeptUnrepeatable(excluded, list, i);
    }
    KeptExactly(excluded, list, |list|);
    var kept := KeptBelow(excluded, list, |list|);
    var k :| 0 <= k < |kept| && kept[k] == i;
    assert Output(excluded, list)[k] == arg;
  }

  /** Any argument that is not repeatable is printed each time. */
  lemma KeptUnrepeatable(excluded: set<Bytes>, list: seq<Bytes>, i: nat)
    requires i < |list| && !Dedupable(list[i])
    ensures Keeps(excluded, list, i) <==> list[i] !in excluded
  {
  }

  /** An argument that is neither excluded nor repeatable is printed as often as it comes. */
  lemma {:induction false} PrintedEachTime(excluded: set<Bytes>, list: seq<Bytes>, n: nat, arg: Bytes)
    requires n <= |list| && !Dedupable(arg) && arg !in excluded
    ensures multiset(Outputs(excluded, list, n))[arg] == multiset(list[..n])[arg]
  {
    hide Outputs, Keeps, Dedupable;
    if n == 0 {
      OutputsNone(excluded, list);
    } else {
      PrintedEachTime(excluded, list, n - 1, arg);
      OutputsNext(excluded, list, n - 1);
      assert list[..n] == list[..n - 1] + [list[n - 1]];
      if list[n - 1] == arg {
        KeptUnrepeatable(excluded, list, n - 1);
      }
    }
  }

  /** An excluded argument stays out of the output exactly if it is no repeatable library. */
  lemma ExclusionHolds(excluded: set<Bytes>, list: seq<Bytes>, arg: Bytes)
    requires arg in excluded && arg in list
    ensures (forall i :: 0 <= i < |list| && list[i] == arg ==> !Keeps(excluded, list, i))
      <==> !(Dedupable(arg) && IsLibrary(arg))
  {
    if Dedupable(arg) && IsLibrary(arg) {
      var i := LastOf(list, arg);
      assert Keeps(excluded, list, i);
    }
  }

  const DASH_I: Bytes := [DASH, 'I' as u8]
  const DASH_CAPITAL_L: Bytes := [DASH, 'L' as u8]

  /** The program only ever excludes search paths, so that no excluded argument is printed. */
  lemma SearchPathsExcluded(excluded: set<Bytes>, list: seq<Bytes>, arg: Bytes)
    requires forall e :: e in excluded ==> DASH_I <= e || DASH_CAPITAL_L <= e
    requires arg in excluded
    ensures arg !in Output(excluded, list)
  {
    hide Keeps, Dedupable;
    assert DASH_L[1] != DASH_I[1] && DASH_L[1] != DASH_CAPITAL_L[1];
    assert !IsLibrary(arg);
    var out := Output(excluded, list);
    if arg in out {
      var j :| 0 <= j < |out| && out[j] == arg;
      var i, _ := OutputFrom(excluded, list, j, j);
      KeptNotExcluded(excluded, list, i);
      assert false;
    }
  }

  lemma KeptNotExcluded(excluded: set<Bytes>, list: seq<Bytes>, i: nat)
    requires i < |list| && Keeps(excluded, list, i)
    ensures !Excluded(excluded, list[i])
  {
  }

  /** One that does not: a library is printed although it was excluded. */
  lemma ExclusionForgotten()
    ensures var arg := DASH_L + ['x' as u8]; Output({arg}, [arg]) == [arg]
  {
    var arg := DASH_L + ['x' as u8];
    assert arg[1] in FLAGS && Dedupable(arg) && IsLibrary(arg);
    OutputsNext({arg}, [arg], 0);
    OutputsNone({arg}, [arg]);
  }

  lemma {:induction false} LastOf(list: seq<Bytes>, arg: Bytes) returns (i: nat)
    requires arg in list
    ensures i < |list| && list[i] == arg && forall j :: i < j < |list| ==> list[j] != arg
  {
    i := |list| - 1;
    if list[i] != arg {
      assert list == list[..i] + [list[i]];
      i := LastOf(list[..i], arg);
    }
  }

  lemma {:induction false} FirstOf(list: seq<Bytes>, arg: Bytes) returns (i: nat)
    requires arg in list
    ensures i < |list| && list[i] == arg && forall j :: 0 <= j < i ==> list[j] != arg
  {
    i := 0;
    if list[0] != arg {
      i := FirstOf(list[1..], arg);
      i := i + 1;
    }
  }

  // ---------- printing ----------

  /** The arguments as printed after `count` others. */
  function Printed(delim: u8, count: nat, args: seq<Bytes>): Bytes
    decreases |args|
  {
    if args == [] then []
    else (if count > 0 then [delim] else []) + args[0] + Printed(delim, count + 1, args[1..])
  }

  lemma {:induction false} PrintedMore(delim: u8, count: nat, args: seq<Bytes>, more: seq<Bytes>)
    ensures Printed(delim, count, args + more) == Printed(delim, count, args) + Printed(delim, count + |args|, more)
    decreases |args|
  {
    if args == [] {
      assert args + more == more;
    } else {
      PrintedMore(delim, count + 1, args[1..], more);
      assert (args + more)[1..] == args[1..] + more;
      var head := (if count > 0 then [delim] else []) + args[0];
      assert head + (Printed(delim, count + 1, args[1..]) + Printed(delim, count + |args|, more))
        == head + Printed(delim, count + 1, args[1..]) + Printed(delim, count + |args|, more);
    }
  }

  lemma PrintedOne(delim: u8, count: nat, args: seq<Bytes>, arg: Bytes)
    ensures Printed(delim, count, args + [arg])
      == Printed(delim, count, args) + (if count + |args| > 0 then [delim] + arg else arg)
    ensures Printed(delim, count, []) == []
  {
    PrintedMore(delim, count, args, [arg]);
    var k := count + |args|;
    assert Printed(delim, k, [arg]) == (if k > 0 then [delim] else []) + arg + Printed(delim, k + 1, []);
  }

  /** Splits a line at the delimiters that no backslash escapes. */
  function SplitLine(delim: u8, s: Bytes, cur: Bytes): seq<Bytes> {
    if s == [] then [cur]
    else if s[0] == Q.BACKSLASH && |s| >= 2 then SplitLine(delim, s[2..], cur + s[..2])
    else if s[0] == delim then [cur] + SplitLine(delim, s[1..], [])
    else SplitLine(delim, s[1..], cur + [s[0]])
  }

  predicate Delimits(delim: u8) {
    !Q.Plain(delim) && delim != Q.BACKSLASH
  }

  lemma {:induction false} SplitSkips(delim: u8, arg: Bytes, rest: Bytes, cur: Bytes)
    requires Delimits(delim) && Q.Escaped(arg)
    ensures SplitLine(delim, arg + rest, cur) == SplitLine(delim, rest, cur + arg)
    decreases |arg|
  {
    hide Q.Plain;
    if arg == [] {
      assert arg + rest == rest && cur + arg == cur;
    } else if arg[0] == Q.BACKSLASH && |arg| >= 2 && Q.Escaped(arg[2..]) {
      assert (arg + rest)[2..] == arg[2..] + rest && (arg + rest)[..2] == arg[..2];
      SplitSkips(delim, arg[2..], rest, cur + arg[..2]);
      assert cur + arg[..2] + arg[2..] == cur + arg;
    } else {
      BackslashNotPlain();
      assert (arg + rest)[1..] == arg[1..] + rest;
      SplitSkips(delim, arg[1..], rest, cur + [arg[0]]);
      assert cur + [arg[0]] + arg[1..] == cur + arg;
    }
  }

  lemma BackslashNotPlain()
    ensures !Q.Plain(Q.BACKSLASH)
  {
    assert Q.BACKSLASH in Q.META;
  }

  lemma SplitFirst(delim: u8, arg: Bytes, rest: Bytes)
    requires Delimits(delim) && Q.Escaped(arg) && (rest != [] ==> rest[0] == delim)
    ensures SplitLine(delim, arg + rest, []) == [arg] + if rest == [] then [] else SplitLine(delim, rest[1..], [])
  {
    SplitSkips(delim, arg, rest, []);
    assert [] + arg == arg;
  }

  lemma {:induction false} SplitPrinted(delim: u8, count: nat, args: seq<Bytes>)
    requires Delimits(delim) && args != []
    requires forall i :: 0 <= i < |args| ==> Q.Escaped(args[i])
    ensures var line := Printed(delim, count, args);
      && (count > 0 ==> line != [] && line[0] == delim)
      && SplitLine(delim, if count > 0 then line[1..] else line, []) == args
    decreases |args|
  {
    hide Q.Plain, Q.Escaped, SplitLine;
    var rest := Printed(delim, count + 1, args[1..]);
    var line := Printed(delim, count, args);
    assert (if count > 0 then line[1..] else line) == args[0] + rest;
    assert args == [args[0]] + args[1..];
    if |args| > 1 {
      SplitPrinted(delim, count + 1, args[1..]);
    }
    SplitFirst(delim, args[0], rest);
  }

  /** Splitting a printed line at unescaped delimiters gives back its arguments. */
  lemma LineSplits(delim: u8, args: seq<Bytes>)
    requires Delimits(delim) && args != []
    requires forall i :: 0 <= i < |args| ==> Q.Escaped(args[i])
    ensures SplitLine(delim, Printed(delim, 0, args), []) == args
  {
    hide Q.Plain, Q.Escaped, SplitLine, Printed;
    SplitPrinted(delim, 0, args);
  }

  // ---------- the argument list ----------

  class Args {
    var list: seq<Bytes>
    var count: nat
    const positions: H.Trie<int>
    /** The arguments recorded before the list began. */
    ghost var excluded: set<Bytes>

    ghost predicate Valid()
      reads this, positions, positions.repr
    {
      && positions.Valid()
      && count == |list|
      && positions.Contents() == PositionsOf(excluded, list)
    }

    constructor ()
      ensures Valid() && list == [] && excluded == {}
      ensures fresh(positions) && fresh(positions.repr)
    {
      hide H.Trie.Valid, PositionsOf;
      list := [];
      count := 0;
      excluded := {};
      positions := new H.Trie();
      new;
      PositionsNone({});
    }

    /** Keeps an argument from being printed. */
    method Exclude(arg: Bytes)
      requires Valid() && list == []
      modifies this`excluded, positions, positions.repr
      ensures Valid() && fresh(positions.repr - old(positions.repr))
      ensures excluded == old(excluded) + {arg}
    {
      hide H.Trie.Valid, H.Trie.Contents, PositionsOf;
      PositionsNone(excluded);
      PositionsNone(excluded + {arg});
      positions.Bind(arg, -1);
      excluded := excluded + {arg};
    }

    /** Appends an argument, recording its position if it is one of those to print. */
    method Append(arg: Bytes)
      requires Valid()
      modifies this`list, this`count, positions, positions.repr
      ensures Valid() && fresh(positions.repr - old(positions.repr))
      ensures list == old(list) + [arg]
    {
      hide H.Trie.Valid, H.Trie.Contents, PositionsOf, Dedupable, IsLibrary;
      PositionsAppend(excluded, list, arg);
      list := list + [arg];
      var position := count;
      count := count + 1;
      if Dedupable(arg) {
        var found := positions.Lookup(arg);
        if found == None || found.value == 0 || IsLibrary(arg) {
          positions.Bind(arg, 1 + position);
        }
      }
    }

    /** Whether the argument at a position is the one to print. */
    method Positioned(position: nat) returns (r: bool)
      requires Valid() && position < |list|
      ensures r <==> Keeps(excluded, list, position)
    {
      hide H.Trie.Valid, H.Trie.Contents, PositionsOf, Keeps;
      InPositionKeeps(excluded, list, position);
      var found := positions.Lookup(list[position]);
      r := found == None || found.value == position + 1;
    }

    /** Prints the list after `argcount` other arguments. */
    method Write(out: Bytes, argcount: nat, delim: u8) returns (r: Bytes, total: nat)
      requires Valid()
      ensures r == out + Printed(delim, argcount, Output(excluded, list))
      ensures total == argcount + |Output(excluded, list)|
    {
      hide H.Trie.Valid, H.Trie.Contents, PositionsOf, Keeps, Printed, Outputs;
      r, total := out, argcount;
      ghost var done: seq<Bytes> := [];
      PrintedOne(delim, argcount, [], []);
      OutputsNone(excluded, list);
      for position := 0 to |list|
        invariant done == Outputs(excluded, list, position)
        invariant r == out + Printed(delim, argcount, done) && total == argcount + |done|
      {
        var arg := list[position];
        OutputsNext(excluded, list, position);
        var prints := Positioned(position);
        if prints {
          PrintedOne(delim, argcount, done, arg);
          if total > 0 {
            r := r + [delim];
          }
          r := r + arg;
          total := total + 1;
          done := done + [arg];
        }
      }
    }
  }
}
