/**
 * varfmt.Sprintf: a positional formatter. A template is literal text with
 * placeholders in braces. A bare "{}" prints the argument at the placeholder's
 * own position (placeholders are numbered from 0, bare and explicit alike); an
 * explicit "{n}" prints argument n, where n is decimal of any length.
 * Arguments are printed the way Go's %v prints them.
 */
module VarFmt {
  import opened Wrappers
  import Decimal

  /** The argument kinds modelled: Go ints, strings, and nil interface values. */
  datatype Arg = Int(i: int) | Str(s: string) | Nil

  /** The text %v gives an argument. */
  function ArgText(a: Arg): string
  {
    match a
    case Int(i) => Decimal.FromInt(i)
    case Str(s) => s
    case Nil => "<nil>"
  }

  /** One piece of a parsed template: a literal character, a bare "{}", or an explicit "{n}". */
  datatype Piece = Lit(c: char) | Next | At(index: nat)

  /** The length of the run of decimal digits that `s` starts with. */
  function DigitRun(s: string): (n: nat)
    ensures n <= |s| && Decimal.AllDigits(s[..n])
    ensures n < |s| ==> !Decimal.IsDigit(s[n])
  {
    if s == [] || !Decimal.IsDigit(s[0]) then 0 else 1 + DigitRun(s[1..])
  }

  /** Splits a template into pieces; None when a brace is unbalanced or holds anything but digits. */
  function Parse(format: string): (r: Option<seq<Piece>>)
    ensures r.Some? ==> PlainText(r.value)
    ensures r.Some? ==> Holes(r.value) == multiset(format)['{']
    decreases |format|
  {
    if format == [] then
      Some([])
    else if format[0] == '{' then
      var n := DigitRun(format[1..]);
      if 1 + n < |format| && format[1 + n] == '}' then
        assert format[1..1 + n] == format[1..][..n];
        var p := if n == 0 then Next else At(Decimal.Value(format[1..1 + n]));
        match Parse(format[2 + n..])
        case Some(rest) =>
          ParsedCons(p, rest);
          BracesAfter(format, 2 + n);
          PlaceholderBraces(format, n);
          Some([p] + rest)
        case None => None
      else
        None
    else if format[0] == '}' then
      None
    else
      match Parse(format[1..])
      case Some(rest) =>
        ParsedCons(Lit(format[0]), rest);
        BracesAfter(format, 1);
        Some([Lit(format[0])] + rest)
      case None => None
  }

  /** Putting a piece in front of parsed pieces keeps them plain text and adds its placeholder. */
  lemma ParsedCons(p: Piece, rest: seq<Piece>)
    requires p.Lit? ==> p.c != '{' && p.c != '}'
    requires PlainText(rest)
    ensures PlainText([p] + rest)
    ensures Holes([p] + rest) == After(p, 0) + Holes(rest)
  {
    assert ([p] + rest)[1..] == rest;
  }

  /** A placeholder holds one opening brace: its digits hold none. */
  lemma PlaceholderBraces(s: string, n: nat)
    requires 1 + n < |s| && s[0] == '{' && s[1 + n] == '}' && Decimal.AllDigits(s[1..1 + n])
    ensures multiset(s[..2 + n])['{'] == 1
  {
    var d := s[1..1 + n];
    assert '{' !in d;
    assert s[..2 + n] == [s[0]] + d + [s[1 + n]];
  }

  /** The opening braces of `s` are those of its first `k` characters and those after them. */
  lemma BracesAfter(s: string, k: nat)
    requires k <= |s|
    ensures multiset(s)['{'] == multiset(s[..k])['{'] + multiset(s[k..])['{']
  {
    assert s == s[..k] + s[k..];
  }

  /** The placeholder number after `p`, when `p` comes at number `next`: only placeholders take one up. */
  function After(p: Piece, next: nat): nat
  {
    if p.Lit? then next else next + 1
  }

  /** The argument a placeholder prints when it is placeholder number `next`. */
  function Slot(p: Piece, next: nat): nat
    requires !p.Lit?
  {
    if p.At? then p.index else next
  }

  /** The number of placeholders among `ps`. */
  function Holes(ps: seq<Piece>): nat
  {
    if ps == [] then 0 else After(ps[0], 0) + Holes(ps[1..])
  }

  /** Every placeholder of `ps` names one of `count` arguments, the first of them being placeholder number `next`. */
  predicate Fits(ps: seq<Piece>, count: nat, next: nat)
  {
    ps == [] ||
    ((ps[0].Lit? || Slot(ps[0], next) < count) && Fits(ps[1..], count, After(ps[0], next)))
  }

  /**
   * What one piece prints when it comes at placeholder number `next`. A
   * placeholder naming a missing argument prints nothing here; Sprintf is
   * only applied where every placeholder fits, so that case never shows.
   */
  function PieceOut(p: Piece, args: seq<Arg>, next: nat): string
  {
    if p.Lit? then [p.c]
    else if Slot(p, next) < |args| then ArgText(args[Slot(p, next)])
    else ""
  }

  /** The output for `ps` when its first placeholder is number `next`. */
  function Render(ps: seq<Piece>, args: seq<Arg>, next: nat): string
  {
    if ps == [] then "" else PieceOut(ps[0], args, next) + Render(ps[1..], args, After(ps[0], next))
  }

  /** The templates the tests use: well-formed, and every placeholder names an existing argument. */
  predicate Accepts(format: string, args: seq<Arg>)
  {
    Parse(format).Some? && Fits(Parse(format).value, |args|, 0)
  }

  /**
   * varfmt.Sprintf, for the templates it accepts: each piece of the template
   * in turn, a literal as itself and a placeholder as the text of the argument
   * it names.
   */
  function Sprintf(format: string, args: seq<Arg>): (r: string)
    requires Accepts(format, args)
    ensures r == Concat(Printed(Parse(format).value, args, 0))
  {
    RenderPieces(Parse(format).value, args, 0);
    Render(Parse(format).value, args, 0)
  }

  // ---------------------------------------------------------------------------
  // The output piece by piece

  function Concat(ss: seq<string>): string
  {
    if ss == [] then "" else ss[0] + Concat(ss[1..])
  }

  /** The placeholder number piece `i` of `ps` comes at, when the first is number `next`. */
  function NumberAt(ps: seq<Piece>, next: nat, i: nat): nat
    requires i <= |ps|
  {
    next + Holes(ps[..i])
  }

  /** Where every placeholder fits, placeholder `i` names an existing argument. */
  lemma {:induction false} FitsAt(ps: seq<Piece>, count: nat, next: nat, i: nat)
    requires Fits(ps, count, next) && i < |ps|
    ensures ps[i].Lit? || Slot(ps[i], NumberAt(ps, next, i)) < count
  {
    if i > 0 {
      FitsAt(ps[1..], count, After(ps[0], next), i - 1);
      NumberStep(ps, next, i);
    }
  }

  /** Numbering from the second piece on continues after the first. */
  lemma NumberStep(ps: seq<Piece>, next: nat, i: nat)
    requires 0 < i <= |ps|
    ensures NumberAt(ps, next, i) == NumberAt(ps[1..], After(ps[0], next), i - 1)
  {
    assert ps[..i][0] == ps[0] && ps[..i][1..] == ps[1..][..i - 1];
  }

  /** What piece `i` prints: a literal itself, a placeholder the argument it names. */
  function PieceAt(ps: seq<Piece>, args: seq<Arg>, next: nat, i: nat): string
    requires Fits(ps, |args|, next) && i < |ps|
  {
    FitsAt(ps, |args|, next, i);
    var p := ps[i];
    if p.Lit? then [p.c] else ArgText(args[Slot(p, NumberAt(ps, next, i))])
  }

  /** The text of every piece, in order. */
  function Printed(ps: seq<Piece>, args: seq<Arg>, next: nat): (out: seq<string>)
    requires Fits(ps, |args|, next)
    ensures |out| == |ps|
  {
    seq(|ps|, i requires 0 <= i < |ps| => PieceAt(ps, args, next, i))
  }

  /** Render prints each piece in turn, each at its own placeholder number. */
  lemma {:induction false} RenderPieces(ps: seq<Piece>, args: seq<Arg>, next: nat)
    requires Fits(ps, |args|, next)
    ensures Render(ps, args, next) == Concat(Printed(ps, args, next))
  {
    if ps != [] {
      var n1 := After(ps[0], next);
      RenderPieces(ps[1..], args, n1);
      var out, tail := Printed(ps, args, next), Printed(ps[1..], args, n1);
      assert out[0] == PieceOut(ps[0], args, next) by {
        assert ps[..0] == [];
      }
      forall i | 0 <= i < |tail|
        ensures out[1..][i] == tail[i]
      {
        NumberStep(ps, next, i + 1);
      }
      assert out[1..] == tail;
    }
  }

  // ---------------------------------------------------------------------------
  // Printing a template and parsing it back

  /** Literal characters other than braces: what a template can hold as text. */
  predicate PlainText(ps: seq<Piece>)
  {
    forall i :: 0 <= i < |ps| ==> ps[i].Lit? ==> ps[i].c != '{' && ps[i].c != '}'
  }

  function PieceText(p: Piece): string
  {
    match p
    case Lit(c) => [c]
    case Next => "{}"
    case At(n) => "{" + Decimal.FromNat(n) + "}"
  }

  /** The template that spells `ps`, explicit indices in shortest decimal form. */
  function Template(ps: seq<Piece>): string
  {
    if ps == [] then "" else PieceText(ps[0]) + Template(ps[1..])
  }

  lemma {:induction false} DigitRunOf(d: string, t: string)
    requires Decimal.AllDigits(d)
    requires t == [] || !Decimal.IsDigit(t[0])
    ensures DigitRun(d + t) == |d|
  {
    if d != [] {
      assert (d + t)[1..] == d[1..] + t;
      DigitRunOf(d[1..], t);
    } else {
      assert d + t == t;
    }
  }

  /** Parsing a piece's own text in front of any rest yields that piece, then whatever the rest parses to. */
  lemma ParsePiece(p: Piece, rest: string)
    requires p.Lit? ==> p.c != '{' && p.c != '}'
    ensures Parse(PieceText(p) + rest) ==
      match Parse(rest)
      case Some(ps) => Some([p] + ps)
      case None => None
  {
    match p
    case Lit(c) =>
      assert (PieceText(p) + rest)[1..] == rest;
    case Next =>
      ParseNext(rest);
    case At(n) =>
      ParseAt(n, rest);
  }

  lemma ParseNext(rest: string)
    ensures Parse("{}" + rest) ==
      match Parse(rest)
      case Some(ps) => Some([Next] + ps)
      case None => None
  {
    var f := "{}" + rest;
    assert f[1..] == "}" + rest;
    assert DigitRun(f[1..]) == 0;
    assert f[2..] == rest;
  }

  lemma ParseAt(n: nat, rest: string)
    ensures Parse("{" + Decimal.FromNat(n) + "}" + rest) ==
      match Parse(rest)
      case Some(ps) => Some([At(n)] + ps)
      case None => None
  {
    var d := Decimal.FromNat(n);
    var f := "{" + d + "}" + rest;
    assert f[1..] == d + ("}" + rest);
    DigitRunOf(d, "}" + rest);
    assert f[1..1 + |d|] == d;
    Decimal.ValueFromNat(n);
    assert f[2 + |d|..] == rest;
  }

  /** Parsing undoes printing: every piece sequence comes back from its template. */
  lemma {:induction false} ParseTemplate(ps: seq<Piece>)
    requires PlainText(ps)
    ensures Parse(Template(ps)) == Some(ps)
  {
    if ps != [] {
      assert PlainText(ps[1..]) by {
        forall i | 0 <= i < |ps[1..]| ensures ps[1..][i].Lit? ==> ps[1..][i].c != '{' && ps[1..][i].c != '}' {
          assert ps[1..][i] == ps[i + 1];
        }
      }
      ParseTemplate(ps[1..]);
      assert ps[0].Lit? ==> ps[0].c != '{' && ps[0].c != '}';
      ParsePiece(ps[0], Template(ps[1..]));
      assert [ps[0]] + ps[1..] == ps;
    }
  }

  // ---------------------------------------------------------------------------
  // What Sprintf promises

  /** Enough arguments for every placeholder number, and every explicit index in range, make a template fit. */
  lemma {:induction false} FitsWhen(ps: seq<Piece>, count: nat, next: nat)
    requires next + Holes(ps) <= count
    requires forall i :: 0 <= i < |ps| ==> ps[i].At? ==> ps[i].index < count
    ensures Fits(ps, count, next)
  {
    if ps != [] {
      assert ps[0].At? ==> ps[0].index < count;
      assert forall i :: 0 <= i < |ps[1..]| ==> ps[1..][i] == ps[i + 1];
      FitsWhen(ps[1..], count, After(ps[0], next));
    }
  }

  lemma {:induction false} FitsAppend(a: seq<Piece>, b: seq<Piece>, count: nat, next: nat)
    ensures Fits(a + b, count, next) <==> Fits(a, count, next) && Fits(b, count, next + Holes(a))
    ensures Holes(a + b) == Holes(a) + Holes(b)
  {
    if a == [] {
      assert a + b == b;
    } else {
      assert (a + b)[0] == a[0] && (a + b)[1..] == a[1..] + b;
      FitsAppend(a[1..], b, count, After(a[0], next));
    }
  }

  /** Render takes the first piece, then the rest. */
  lemma RenderFirst(ps: seq<Piece>, args: seq<Arg>, next: nat)
    requires ps != []
    ensures Render(ps, args, next) == PieceOut(ps[0], args, next) + Render(ps[1..], args, After(ps[0], next))
  {
  }

  /** Concatenation regroups; kept apart so that its proof runs in a small context. */
  lemma Associative(o: string, x: string, y: string)
    ensures o + (x + y) == (o + x) + y
  {
  }

  /** The first piece and the rest of a concatenation. */
  lemma DropAppend(a: seq<Piece>, b: seq<Piece>)
    requires a != []
    ensures (a + b)[0] == a[0] && (a + b)[1..] == a[1..] + b
  {
  }

  /** Pieces are rendered one after the other; later ones continue the placeholder numbering. */
  lemma {:induction false} RenderAppend(a: seq<Piece>, b: seq<Piece>, args: seq<Arg>, next: nat)
    ensures Render(a + b, args, next) == Render(a, args, next) + Render(b, args, next + Holes(a))
  {
    if a == [] {
      assert a + b == b;
    } else {
      RenderAppend(a[1..], b, args, After(a[0], next));
      AppendStep(a, b, args, next);
    }
  }

  /** One step of RenderAppend: from the rest of `a` to all of it. */
  lemma AppendStep(a: seq<Piece>, b: seq<Piece>, args: seq<Arg>, next: nat)
    requires a != []
    requires Render(a[1..] + b, args, After(a[0], next))
          == Render(a[1..], args, After(a[0], next)) + Render(b, args, After(a[0], next) + Holes(a[1..]))
    ensures Render(a + b, args, next) == Render(a, args, next) + Render(b, args, next + Holes(a))
  {
    var n1 := After(a[0], next);
    var o, x, y := PieceOut(a[0], args, next), Render(a[1..], args, n1), Render(b, args, next + Holes(a));
    assert Render(a + b, args, next) == o + Render(a[1..] + b, args, n1) by {
      DropAppend(a, b);
      RenderFirst(a + b, args, next);
    }
    assert Render(a, args, next) == o + x by {
      RenderFirst(a, args, next);
    }
    assert n1 + Holes(a[1..]) == next + Holes(a);
    Associative(o, x, y);
  }

  lemma TemplateAppend(a: seq<Piece>, b: seq<Piece>)
    ensures Template(a + b) == Template(a) + Template(b)
  {
    if a == [] {
      assert a + b == b;
    } else {
      assert (a + b)[1..] == a[1..] + b;
      TemplateAppend(a[1..], b);
    }
  }

  lemma SingleHole(p: Piece, args: seq<Arg>, next: nat)
    ensures Holes([p]) == After(p, 0)
    ensures Fits([p], |args|, next) <==> p.Lit? || Slot(p, next) < |args|
    ensures Render([p], args, next) == PieceOut(p, args, next)
  {
    assert [p][1..] == [];
  }

  /** The output around one piece `p`: what comes before, what `p` prints, what comes after. */
  lemma {:induction false} RenderAround(pre: seq<Piece>, p: Piece, post: seq<Piece>, args: seq<Arg>)
    requires Fits(pre + [p] + post, |args|, 0)
    ensures Fits(pre, |args|, 0)
    ensures p.Lit? || Slot(p, Holes(pre)) < |args|
    ensures Fits(post, |args|, After(p, Holes(pre)))
    ensures Render(pre + [p] + post, args, 0)
         == Render(pre, args, 0) + PieceOut(p, args, Holes(pre)) + Render(post, args, After(p, Holes(pre)))
  {
    FitsAround(pre, p, post, |args|);
    RenderThree(pre, p, post, args);
  }

  lemma {:induction false} FitsAround(pre: seq<Piece>, p: Piece, post: seq<Piece>, count: nat)
    ensures Fits(pre + [p] + post, count, 0) <==>
      Fits(pre, count, 0) && (p.Lit? || Slot(p, Holes(pre)) < count) && Fits(post, count, After(p, Holes(pre)))
  {
    var front := pre + [p];
    FitsAppend(front, post, count, 0);
    FitsAppend(pre, [p], count, 0);
    assert Fits([p], count, Holes(pre)) <==> p.Lit? || Slot(p, Holes(pre)) < count by {
      assert [p][1..] == [];
    }
    assert Holes([p]) == After(p, 0) by {
      assert [p][1..] == [];
    }
  }

  lemma {:induction false} RenderThree(pre: seq<Piece>, p: Piece, post: seq<Piece>, args: seq<Arg>)
    ensures Render(pre + [p] + post, args, 0)
         == Render(pre, args, 0) + PieceOut(p, args, Holes(pre)) + Render(post, args, After(p, Holes(pre)))
  {
    var front := pre + [p];
    var k := Holes(pre);
    RenderAppend(pre, [p], args, 0);
    RenderAppend(front, post, args, 0);
    SingleHole(p, args, k);
    FitsAppend(pre, [p], |args|, 0);
  }

  /** A bare "{}" that is placeholder number k prints argument k, whatever explicit placeholders come before it. */
  lemma {:induction false} SprintfNext(pre: seq<Piece>, post: seq<Piece>, args: seq<Arg>)
    requires PlainText(pre + [Next] + post)
    requires Fits(pre + [Next] + post, |args|, 0)
    ensures Holes(pre) < |args|
    ensures Fits(pre, |args|, 0) && Fits(post, |args|, Holes(pre) + 1)
    ensures Accepts(Template(pre + [Next] + post), args)
    ensures Sprintf(Template(pre + [Next] + post), args)
         == Render(pre, args, 0) + ArgText(args[Holes(pre)]) + Render(post, args, Holes(pre) + 1)
  {
    ParseTemplate(pre + [Next] + post);
    RenderAround(pre, Next, post, args);
  }

  /** An explicit "{n}" prints argument n, and still takes up one placeholder number. */
  lemma {:induction false} SprintfAt(pre: seq<Piece>, n: nat, post: seq<Piece>, args: seq<Arg>)
    requires PlainText(pre + [At(n)] + post)
    requires Fits(pre + [At(n)] + post, |args|, 0)
    ensures n < |args|
    ensures Fits(pre, |args|, 0) && Fits(post, |args|, Holes(pre) + 1)
    ensures Accepts(Template(pre + [At(n)] + post), args)
    ensures Sprintf(Template(pre + [At(n)] + post), args)
         == Render(pre, args, 0) + ArgText(args[n]) + Render(post, args, Holes(pre) + 1)
  {
    ParseTemplate(pre + [At(n)] + post);
    RenderAround(pre, At(n), post, args);
  }

  /** Literal text is printed as it stands. */
  lemma {:induction false} RenderText(ps: seq<Piece>, args: seq<Arg>, next: nat)
    requires forall i :: 0 <= i < |ps| ==> ps[i].Lit?
    ensures Fits(ps, |args|, next) && Holes(ps) == 0
    ensures Render(ps, args, next) == Template(ps)
  {
    if ps != [] {
      assert ps[0].Lit?;
      RenderText(ps[1..], args, next);
    }
  }

  /** A template without braces is copied to the output unchanged, whatever the arguments. */
  lemma {:induction false} SprintfText(text: string, args: seq<Arg>)
    requires forall i :: 0 <= i < |text| ==> text[i] != '{' && text[i] != '}'
    ensures Accepts(text, args) && Sprintf(text, args) == text
  {
    var ps := seq(|text|, i requires 0 <= i < |text| => Lit(text[i]));
    TextTemplate(text);
    ParseTemplate(ps);
    RenderText(ps, args, 0);
  }

  lemma {:induction false} TextTemplate(text: string)
    ensures Template(seq(|text|, i requires 0 <= i < |text| => Lit(text[i]))) == text
  {
    var ps := seq(|text|, i requires 0 <= i < |text| => Lit(text[i]));
    if text != [] {
      TextTemplate(text[1..]);
      assert ps[1..] == seq(|text[1..]|, i requires 0 <= i < |text[1..]| => Lit(text[1..][i]));
      assert text == [text[0]] + text[1..];
    }
  }

  /** The argument positions that the placeholders of `ps` print, the first being number `next`. */
  function Refs(ps: seq<Piece>, next: nat): set<nat>
  {
    if ps == [] then {}
    else (if ps[0].Lit? then {} else {Slot(ps[0], next)}) + Refs(ps[1..], After(ps[0], next))
  }

  /** Arguments that no placeholder refers to do not affect the output. */
  lemma {:induction false} RenderOnlyRefs(ps: seq<Piece>, args: seq<Arg>, args': seq<Arg>, next: nat)
    requires Fits(ps, |args|, next) && Fits(ps, |args'|, next)
    requires forall i :: i in Refs(ps, next) && i < |args| && i < |args'| ==> args[i] == args'[i]
    ensures Render(ps, args, next) == Render(ps, args', next)
  {
    if ps != [] {
      RenderOnlyRefs(ps[1..], args, args', After(ps[0], next));
    }
  }

  lemma SprintfOnlyRefs(format: string, args: seq<Arg>, args': seq<Arg>)
    requires Accepts(format, args) && Accepts(format, args')
    requires forall i :: i in Refs(Parse(format).value, 0) && i < |args| && i < |args'| ==> args[i] == args'[i]
    ensures Sprintf(format, args) == Sprintf(format, args')
  {
    RenderOnlyRefs(Parse(format).value, args, args', 0);
  }
}
