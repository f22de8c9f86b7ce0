/** On well-formed UTF-16 the splitter's transcoding is the one the rest of the program uses. */
module WideText {
  import C = CommandLine
  import W = CommandWords
  import U = Utf

  lemma SameSurrogates(u: bv16)
    ensures C.High(u) <==> U.High(u)
    ensures C.Low(u) <==> U.Low(u)
  {
  }

  lemma SameCharacter(w: C.Units)
    requires w != []
    ensures C.Pair(w) <==> |w| >= 2 && U.High(w[0]) && U.Low(w[1])
    ensures U.ValidUtf16(w) ==> C.Decode(w) == U.Utf16Decode(w).rune && C.Width(w) == U.Utf16Decode(w).width
  {
    SameSurrogates(w[0]);
    if |w| >= 2 {
      SameSurrogates(w[1]);
    }
    U.HighNotLow(w[0]);
    hide C.High, C.Low, U.High, U.Low;
  }

  lemma SameEncoding(r: bv32)
    requires U.Scalar(r)
    ensures C.Encode(r) == U.Encode8(r)
  {
  }

  /** WTF-8 of well-formed UTF-16 is its UTF-8, and well-formed. */
  lemma {:induction false} Wtf8IsUtf8(w: C.Units)
    requires U.ValidUtf16(w)
    ensures C.Wtf8(w) == U.FromWide(w)
    decreases |w|
  {
    if w != [] {
      U.Decodes16(w);
      SameCharacter(w);
      var d := U.Utf16Decode(w);
      SameEncoding(d.rune);
      Wtf8IsUtf8(w[d.width..]);
      hide C.Encode, C.Decode, U.Encode8, U.Utf16Decode;
    }
  }

  /** An unpaired surrogate becomes the three bytes that would stand for its number, which no UTF-8 text holds. */
  lemma SurrogateEncoded(u: bv16)
    requires U.High(u) || U.Low(u)
    ensures var s := C.Encode(u as bv32);
      && |s| == 3 && s[0] == 0xed && 0xa0 <= s[1] <= 0xbf && 0x80 <= s[2] <= 0xbf
      && (u as bv32) == 0xd000 + 64 * ((s[1] as bv32) - 0x80) + ((s[2] as bv32) - 0x80)
  {
  }

  /** What a quoted line splits into, transcoded back, is the arguments it was quoted from. */
  lemma QuotedArgumentsComeBack(program: C.Units, args: seq<C.Units>, i: nat)
    requires C.QUOTE16 !in program && i < |args| && U.ValidUtf16(args[i])
    ensures var argv := C.Split(W.Command(program, args));
      && |argv| == 1 + |args|
      && U.ToWide(argv[1 + i]) == args[i] && U.ValidUtf8(argv[1 + i])
  {
    hide C.Wtf8, C.Split, W.Command, U.ToWide, U.FromWide, U.ValidUtf8, U.ValidUtf16;
    W.SplitUndoesQuoting(program, args);
    BodiesAt(args, i);
    Wtf8IsUtf8(args[i]);
    U.Utf16RoundTrip(args[i]);
    U.FromWideValid(args[i]);
  }

  lemma {:induction false} BodiesAt(args: seq<C.Units>, i: nat)
    requires i < |args|
    ensures |W.Bodies(args)| == |args| && W.Bodies(args)[i] == C.Wtf8(args[i])
  {
    if |args| > 1 {
      BodiesAt(args[1..], if i > 0 then i - 1 else 0);
    }
  }
}
