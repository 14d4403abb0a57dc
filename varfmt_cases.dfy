/**
 * Rows of the formatter's test table. Each row's template is given as the
 * pieces it parses to, with a proof that those pieces spell exactly the
 * row's format string, and a proof that they render to the row's output.
 */
module VarFmtCases {
  import opened VarFmt

  /** A row holds when its pieces are plain text, fit the arguments and render to the expected output. */
  lemma {:induction false} SprintfCase(ps: seq<Piece>, args: seq<Arg>, out: string)
    requires PlainText(ps) && Fits(ps, |args|, 0) && Render(ps, args, 0) == out
    ensures Accepts(Template(ps), args) && Sprintf(Template(ps), args) == out
  {
    ParseTemplate(ps);
  }

  /** The argument list shared by the multi-digit rows: 1002 slots, nil except 10, 100 and 1000. */
  function Sparse(): (args: seq<Arg>)
    ensures |args| == 1002
    ensures args[10] == Int(1) && args[100] == Int(2) && args[1000] == Int(3)
  {
    seq(1002, i => if i == 10 then Int(1) else if i == 100 then Int(2) else if i == 1000 then Int(3) else Nil)
  }

  function SingleNextPieces(): seq<Piece>
  {
    [Next]
  }

  lemma SingleNextText()
    ensures Template(SingleNextPieces()) == "{}" && PlainText(SingleNextPieces())
  {
  }

  lemma SingleNextOutput()
    ensures Fits(SingleNextPieces(), 1, 0) && Render(SingleNextPieces(), [Int(0)], 0) == "0"
  {
    FitsWhen(SingleNextPieces(), 1, 0);
  }

  /** A lone "{}" prints the one argument. */
  lemma SingleNext()
    ensures Template(SingleNextPieces()) == "{}"
    ensures var args := [Int(0)];
      Accepts(Template(SingleNextPieces()), args) && Sprintf(Template(SingleNextPieces()), args) == "0"
  {
    SingleNextText();
    SingleNextOutput();
    SprintfCase(SingleNextPieces(), [Int(0)], "0");
  }

  function RepeatedIndexPieces(): seq<Piece>
  {
    [At(0), Lit(' '), At(0)]
  }

  lemma RepeatedIndexText()
    ensures Template(RepeatedIndexPieces()) == "{0} {0}" && PlainText(RepeatedIndexPieces())
  {
  }

  lemma RepeatedIndexOutput()
    ensures Fits(RepeatedIndexPieces(), 1, 0) && Render(RepeatedIndexPieces(), [Int(1)], 0) == "1 1"
  {
  }

  /** One argument may be printed many times. */
  lemma RepeatedIndex()
    ensures Template(RepeatedIndexPieces()) == "{0} {0}"
    ensures var args := [Int(1)];
      Accepts(Template(RepeatedIndexPieces()), args) && Sprintf(Template(RepeatedIndexPieces()), args) == "1 1"
  {
    RepeatedIndexText();
    RepeatedIndexOutput();
    SprintfCase(RepeatedIndexPieces(), [Int(1)], "1 1");
  }

  function UnusedArgsPieces(): seq<Piece>
  {
    [At(1), Lit(' '), At(5)]
  }

  lemma UnusedArgsText()
    ensures Template(UnusedArgsPieces()) == "{1} {5}" && PlainText(UnusedArgsPieces())
  {
  }

  lemma UnusedArgsOutput()
    ensures Fits(UnusedArgsPieces(), 7, 0) && Render(UnusedArgsPieces(), [Int(0), Int(1), Int(2), Int(3), Int(4), Int(5), Int(6)], 0) == "1 5"
  {
    FitsWhen(UnusedArgsPieces(), 7, 0);
  }

  /** Arguments that no placeholder names do not appear. */
  lemma UnusedArgs()
    ensures Template(UnusedArgsPieces()) == "{1} {5}"
    ensures var args := [Int(0), Int(1), Int(2), Int(3), Int(4), Int(5), Int(6)];
      Accepts(Template(UnusedArgsPieces()), args) && Sprintf(Template(UnusedArgsPieces()), args) == "1 5"
  {
    UnusedArgsText();
    UnusedArgsOutput();
    SprintfCase(UnusedArgsPieces(), [Int(0), Int(1), Int(2), Int(3), Int(4), Int(5), Int(6)], "1 5");
  }

  /** The five integer arguments shared by two rows. */
  function Five(): seq<Arg>
  {
    [Int(0), Int(1), Int(2), Int(3), Int(4)]
  }

  function TwoNext(): seq<Piece>
  {
    [Next, Lit(' '), Next]
  }

  function SpacedNext(): seq<Piece>
  {
    [Lit(' '), Next, Lit(' ')]
  }

  lemma TwoNextFacts()
    ensures Template(TwoNext()) == "{} {}" && PlainText(TwoNext())
    ensures Fits(TwoNext(), 5, 0) && Holes(TwoNext()) == 2 && Render(TwoNext(), Five(), 0) == "0 1"
    ensures Fits(TwoNext(), 5, 3) && Holes(TwoNext()) == 2 && Render(TwoNext(), Five(), 3) == "3 4"
  {
    FitsWhen(TwoNext(), 5, 3);
  }

  lemma SpacedNextFacts()
    ensures Template(SpacedNext()) == " {} " && PlainText(SpacedNext())
    ensures Fits(SpacedNext(), 5, 2) && Holes(SpacedNext()) == 1 && Render(SpacedNext(), Five(), 2) == " 2 "
  {
  }

  lemma AllNextText()
    ensures Template(TwoNext() + SpacedNext() + TwoNext()) == "{} {} {} {} {}" && PlainText(TwoNext() + SpacedNext() + TwoNext())
  {
    TwoNextFacts(); SpacedNextFacts();
    TemplateAppend(TwoNext(), SpacedNext());
    TemplateAppend(TwoNext() + SpacedNext(), TwoNext());
  }

  lemma AllNextOutput()
    ensures Fits(TwoNext() + SpacedNext() + TwoNext(), 5, 0) && Render(TwoNext() + SpacedNext() + TwoNext(), Five(), 0) == "0 1 2 3 4"
  {
    TwoNextFacts(); SpacedNextFacts();
    RenderAppend(TwoNext(), SpacedNext(), Five(), 0);
    FitsAppend(TwoNext(), SpacedNext(), 5, 0);
    RenderAppend(TwoNext() + SpacedNext(), TwoNext(), Five(), 0);
    FitsAppend(TwoNext() + SpacedNext(), TwoNext(), 5, 0);
  }

  /** Bare placeholders print the arguments in order. */
  lemma AllNext()
    ensures Template(TwoNext() + SpacedNext() + TwoNext()) == "{} {} {} {} {}"
    ensures var args := Five();
      Accepts(Template(TwoNext() + SpacedNext() + TwoNext()), args) && Sprintf(Template(TwoNext() + SpacedNext() + TwoNext()), args) == "0 1 2 3 4"
  {
    AllNextText();
    AllNextOutput();
    SprintfCase(TwoNext() + SpacedNext() + TwoNext(), Five(), "0 1 2 3 4");
  }

  function NextThenZero(): seq<Piece>
  {
    [Next, Lit(' '), At(0)]
  }

  function SpacedZero(): seq<Piece>
  {
    [Lit(' '), At(0), Lit(' ')]
  }

  function ZeroThenNext(): seq<Piece>
  {
    [At(0), Lit(' '), Next]
  }

  lemma NextThenZeroFacts()
    ensures Template(NextThenZero()) == "{} {0}" && PlainText(NextThenZero())
    ensures Fits(NextThenZero(), 5, 0) && Holes(NextThenZero()) == 2 && Render(NextThenZero(), Five(), 0) == "0 0"
  {
    FitsWhen(NextThenZero(), 5, 0);
  }

  lemma SpacedZeroFacts()
    ensures Template(SpacedZero()) == " {0} " && PlainText(SpacedZero())
    ensures Fits(SpacedZero(), 5, 2) && Holes(SpacedZero()) == 1 && Render(SpacedZero(), Five(), 2) == " 0 "
  {
    FitsWhen(SpacedZero(), 5, 2);
  }

  lemma ZeroThenNextFacts()
    ensures Template(ZeroThenNext()) == "{0} {}" && PlainText(ZeroThenNext())
    ensures Fits(ZeroThenNext(), 5, 3) && Holes(ZeroThenNext()) == 2 && Render(ZeroThenNext(), Five(), 3) == "0 4"
  {
    FitsWhen(ZeroThenNext(), 5, 3);
  }

  lemma ExplicitAdvancesText()
    ensures Template(NextThenZero() + SpacedZero() + ZeroThenNext()) == "{} {0} {0} {0} {}" && PlainText(NextThenZero() + SpacedZero() + ZeroThenNext())
  {
    NextThenZeroFacts(); SpacedZeroFacts(); ZeroThenNextFacts();
    TemplateAppend(NextThenZero(), SpacedZero());
    TemplateAppend(NextThenZero() + SpacedZero(), ZeroThenNext());
  }

  lemma ExplicitAdvancesOutput()
    ensures Fits(NextThenZero() + SpacedZero() + ZeroThenNext(), 5, 0) && Render(NextThenZero() + SpacedZero() + ZeroThenNext(), Five(), 0) == "0 0 0 0 4"
  {
    NextThenZeroFacts(); SpacedZeroFacts(); ZeroThenNextFacts();
    RenderAppend(NextThenZero(), SpacedZero(), Five(), 0);
    FitsAppend(NextThenZero(), SpacedZero(), 5, 0);
    RenderAppend(NextThenZero() + SpacedZero(), ZeroThenNext(), Five(), 0);
    FitsAppend(NextThenZero() + SpacedZero(), ZeroThenNext(), 5, 0);
  }

  /** Explicit placeholders still use up placeholder numbers: the last "{}" is number 4. */
  lemma ExplicitAdvances()
    ensures Template(NextThenZero() + SpacedZero() + ZeroThenNext()) == "{} {0} {0} {0} {}"
    ensures var args := Five();
      Accepts(Template(NextThenZero() + SpacedZero() + ZeroThenNext()), args) && Sprintf(Template(NextThenZero() + SpacedZero() + ZeroThenNext()), args) == "0 0 0 0 4"
  {
    ExplicitAdvancesText();
    ExplicitAdvancesOutput();
    SprintfCase(NextThenZero() + SpacedZero() + ZeroThenNext(), Five(), "0 0 0 0 4");
  }

  function Hel(): seq<Piece>
  {
    [Lit('H'), Lit('e'), Lit('l')]
  }

  function LoComma(): seq<Piece>
  {
    [Lit('l'), Lit('o'), Lit(',')]
  }

  function SpaceTwo(): seq<Piece>
  {
    [Lit(' '), At(2)]
  }

  lemma HelFacts()
    ensures Template(Hel()) == "Hel" && PlainText(Hel())
    ensures Fits(Hel(), 3, 0) && Holes(Hel()) == 0 && Render(Hel(), [Int(0), Int(1), Str("World")], 0) == "Hel"
  {
  }

  lemma LoCommaFacts()
    ensures Template(LoComma()) == "lo," && PlainText(LoComma())
    ensures Fits(LoComma(), 3, 0) && Holes(LoComma()) == 0 && Render(LoComma(), [Int(0), Int(1), Str("World")], 0) == "lo,"
  {
  }

  lemma SpaceTwoFacts()
    ensures Template(SpaceTwo()) == " {2}" && PlainText(SpaceTwo())
    ensures Fits(SpaceTwo(), 3, 0) && Holes(SpaceTwo()) == 1 && Render(SpaceTwo(), [Int(0), Int(1), Str("World")], 0) == " World"
  {
  }

  lemma TextAroundText()
    ensures Template(Hel() + LoComma() + SpaceTwo()) == "Hello, {2}" && PlainText(Hel() + LoComma() + SpaceTwo())
  {
    HelFacts(); LoCommaFacts(); SpaceTwoFacts();
    TemplateAppend(Hel(), LoComma());
    TemplateAppend(Hel() + LoComma(), SpaceTwo());
  }

  lemma TextAroundOutput()
    ensures Fits(Hel() + LoComma() + SpaceTwo(), 3, 0) && Render(Hel() + LoComma() + SpaceTwo(), [Int(0), Int(1), Str("World")], 0) == "Hello, World"
  {
    HelFacts(); LoCommaFacts(); SpaceTwoFacts();
    RenderAppend(Hel(), LoComma(), [Int(0), Int(1), Str("World")], 0);
    FitsAppend(Hel(), LoComma(), 3, 0);
    RenderAppend(Hel() + LoComma(), SpaceTwo(), [Int(0), Int(1), Str("World")], 0);
    FitsAppend(Hel() + LoComma(), SpaceTwo(), 3, 0);
  }

  /** Literal text is copied, and a string argument is printed as it is. */
  lemma TextAround()
    ensures Template(Hel() + LoComma() + SpaceTwo()) == "Hello, {2}"
    ensures var args := [Int(0), Int(1), Str("World")];
      Accepts(Template(Hel() + LoComma() + SpaceTwo()), args) && Sprintf(Template(Hel() + LoComma() + SpaceTwo()), args) == "Hello, World"
  {
    TextAroundText();
    TextAroundOutput();
    SprintfCase(Hel() + LoComma() + SpaceTwo(), [Int(0), Int(1), Str("World")], "Hello, World");
  }

  function TextInsideWordPieces(): seq<Piece>
  {
    [Lit('H'), Lit('e'), At(2), Lit('o')]
  }

  lemma TextInsideWordText()
    ensures Template(TextInsideWordPieces()) == "He{2}o" && PlainText(TextInsideWordPieces())
  {
  }

  lemma TextInsideWordOutput()
    ensures Fits(TextInsideWordPieces(), 3, 0) && Render(TextInsideWordPieces(), [Int(0), Int(1), Str("ll")], 0) == "Hello"
  {
    FitsWhen(TextInsideWordPieces(), 3, 0);
  }

  /** A placeholder may sit inside a word. */
  lemma TextInsideWord()
    ensures Template(TextInsideWordPieces()) == "He{2}o"
    ensures var args := [Int(0), Int(1), Str("ll")];
      Accepts(Template(TextInsideWordPieces()), args) && Sprintf(Template(TextInsideWordPieces()), args) == "Hello"
  {
    TextInsideWordText();
    TextInsideWordOutput();
    SprintfCase(TextInsideWordPieces(), [Int(0), Int(1), Str("ll")], "Hello");
  }

  function TwoDigitIndexPieces(): seq<Piece>
  {
    [At(10)]
  }

  lemma TwoDigitIndexText()
    ensures Template(TwoDigitIndexPieces()) == "{10}" && PlainText(TwoDigitIndexPieces())
  {
  }

  lemma TwoDigitIndexOutput()
    ensures Fits(TwoDigitIndexPieces(), 11, 0) && Render(TwoDigitIndexPieces(), Sparse()[..11], 0) == "1"
  {
    FitsWhen(TwoDigitIndexPieces(), 11, 0);
  }

  /** A two-digit explicit index. */
  lemma TwoDigitIndex()
    ensures Template(TwoDigitIndexPieces()) == "{10}"
    ensures var args := Sparse()[..11];
      Accepts(Template(TwoDigitIndexPieces()), args) && Sprintf(Template(TwoDigitIndexPieces()), args) == "1"
  {
    TwoDigitIndexText();
    TwoDigitIndexOutput();
    SprintfCase(TwoDigitIndexPieces(), Sparse()[..11], "1");
  }

  function ThreeDigitIndexPieces(): seq<Piece>
  {
    [At(100)]
  }

  lemma ThreeDigitIndexText()
    ensures Template(ThreeDigitIndexPieces()) == "{100}" && PlainText(ThreeDigitIndexPieces())
  {
  }

  lemma ThreeDigitIndexOutput()
    ensures Fits(ThreeDigitIndexPieces(), 101, 0) && Render(ThreeDigitIndexPieces(), Sparse()[..101], 0) == "2"
  {
    FitsWhen(ThreeDigitIndexPieces(), 101, 0);
  }

  /** A three-digit explicit index. */
  lemma ThreeDigitIndex()
    ensures Template(ThreeDigitIndexPieces()) == "{100}"
    ensures var args := Sparse()[..101];
      Accepts(Template(ThreeDigitIndexPieces()), args) && Sprintf(Template(ThreeDigitIndexPieces()), args) == "2"
  {
    ThreeDigitIndexText();
    ThreeDigitIndexOutput();
    SprintfCase(ThreeDigitIndexPieces(), Sparse()[..101], "2");
  }

  function FourDigitIndexPieces(): seq<Piece>
  {
    [At(1000)]
  }

  lemma FourDigitIndexText()
    ensures Template(FourDigitIndexPieces()) == "{1000}" && PlainText(FourDigitIndexPieces())
  {
  }

  lemma FourDigitIndexOutput()
    ensures Fits(FourDigitIndexPieces(), 1001, 0) && Render(FourDigitIndexPieces(), Sparse()[..1001], 0) == "3"
  {
    FitsWhen(FourDigitIndexPieces(), 1001, 0);
  }

  /** A four-digit explicit index. */
  lemma FourDigitIndex()
    ensures Template(FourDigitIndexPieces()) == "{1000}"
    ensures var args := Sparse()[..1001];
      Accepts(Template(FourDigitIndexPieces()), args) && Sprintf(Template(FourDigitIndexPieces()), args) == "3"
  {
    FourDigitIndexText();
    FourDigitIndexOutput();
    SprintfCase(FourDigitIndexPieces(), Sparse()[..1001], "3");
  }
}
