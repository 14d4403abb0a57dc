/**
 * The baseline word counter: a tally of space-separated words, line by line,
 * kept in a map that every call to Count adds to, and rendered by String as
 * one line per word in ascending byte order.
 *
 * Go strings are byte strings; here each byte is a `char` of the same code.
 */
module Allocs {
  import opened Wrappers
  import Decimal

  // ---------------------------------------------------------------------------
  // Reading the input

  /** The error a failed read reports. */
  datatype IoError = IoError(reason: string)

  /** What reading the whole input yields: all of its bytes, or an error. */
  datatype ReadOutcome = Data(bytes: string) | Failed(error: IoError)

  // ---------------------------------------------------------------------------
  // Splitting, as strings.SplitSeq does it

  /**
   * The pieces of `s` between occurrences of `sep`, in order. Adjacent
   * separators and separators at either end give empty pieces, and the empty
   * string gives one empty piece.
   */
  function Split(s: string, sep: char): (pieces: seq<string>)
    ensures |pieces| >= 1
    ensures forall i :: 0 <= i < |pieces| ==> sep !in pieces[i]
    decreases |s|
  {
    if s == [] then [""]
    else
      var rest := Split(s[1..], sep);
      if s[0] == sep then [""] + rest
      else [[s[0]] + rest[0]] + rest[1..]
  }

  /** Every character of a piece comes from the string split. */
  lemma {:induction false} SplitWithin(s: string, sep: char, i: nat, c: char)
    requires i < |Split(s, sep)| && c in Split(s, sep)[i]
    ensures c in s
    decreases |s|
  {
    if s != [] {
      var rest := Split(s[1..], sep);
      if s[0] == sep {
        SplitWithin(s[1..], sep, i - 1, c);
      } else if i > 0 {
        SplitWithin(s[1..], sep, i, c);
      } else if c != s[0] {
        SplitWithin(s[1..], sep, 0, c);
      }
    }
  }

  /** The pieces glued back together with `sep` between neighbours. */
  function Join(pieces: seq<string>, sep: char): string
  {
    if pieces == [] then ""
    else if |pieces| == 1 then pieces[0]
    else pieces[0] + [sep] + Join(pieces[1..], sep)
  }

  /** Splitting loses nothing: joining the pieces restores the string. */
  lemma {:induction false} JoinSplit(s: string, sep: char)
    ensures Join(Split(s, sep), sep) == s
    decreases |s|
  {
    if s != [] {
      var rest := Split(s[1..], sep);
      JoinSplit(s[1..], sep);
      if s[0] == sep {
        assert ([""] + rest)[1..] == rest;
      } else if |rest| == 1 {
        assert [s[0]] + rest[0] == s;
      } else {
        var r := [[s[0]] + rest[0]] + rest[1..];
        assert r[1..] == rest[1..];
        assert Join(rest, sep) == rest[0] + [sep] + Join(rest[1..], sep);
        assert s == [s[0]] + s[1..];
      }
    }
  }

  /** There is one more piece than there are separators. */
  lemma {:induction false} SplitCount(s: string, sep: char)
    ensures |Split(s, sep)| == multiset(s)[sep] + 1
    decreases |s|
  {
    if s != [] {
      SplitCount(s[1..], sep);
      assert s == [s[0]] + s[1..];
    }
  }

  /** A separator ends the last piece before it and starts a new one. */
  lemma {:induction false} SplitSep(x: string, sep: char, y: string)
    ensures Split(x + [sep] + y, sep) == Split(x, sep) + Split(y, sep)
    decreases |x|
  {
    if x == [] {
      assert x + [sep] + y == [sep] + y;
      assert ([sep] + y)[1..] == y;
    } else {
      assert (x + [sep] + y)[1..] == x[1..] + [sep] + y;
      SplitSep(x[1..], sep, y);
    }
  }

  /** A string without the separator is a single piece. */
  lemma {:induction false} SplitNone(s: string, sep: char)
    requires sep !in s
    ensures Split(s, sep) == [s]
    decreases |s|
  {
    if s != [] {
      assert sep !in s[1..];
      SplitNone(s[1..], sep);
      assert [s[0]] + s[1..] == s;
    }
  }

  // ---------------------------------------------------------------------------
  // The words of an input

  /** The words of each line, one line after the other. */
  function WordsOf(lines: seq<string>): (words: seq<string>)
    ensures (forall i :: 0 <= i < |lines| ==> '\n' !in lines[i]) ==>
      forall i :: 0 <= i < |words| ==> '\n' !in words[i] && ' ' !in words[i]
  {
    if lines == [] then []
    else
      LineClean(lines[0]);
      Split(lines[0], ' ') + WordsOf(lines[1..])
  }

  /** Every word the counter sees in `data`: split into lines, then each line into words. */
  function Words(data: string): (words: seq<string>)
    ensures forall i :: 0 <= i < |words| ==> '\n' !in words[i] && ' ' !in words[i]
  {
    WordsOf(Split(data, '\n'))
  }

  lemma {:induction false} WordsOfAppend(a: seq<string>, b: seq<string>)
    ensures WordsOf(a + b) == WordsOf(a) + WordsOf(b)
  {
    if a == [] {
      assert a + b == b;
    } else {
      assert (a + b)[1..] == a[1..] + b;
      WordsOfAppend(a[1..], b);
    }
  }

  /** The lines of `s` hold one word per space plus one per line. */
  lemma {:induction false} LinesWords(s: string)
    ensures |WordsOf(Split(s, '\n'))| == multiset(s)[' '] + |Split(s, '\n')|
    decreases |s|
  {
    if s != [] {
      var rest := Split(s[1..], '\n');
      LinesWords(s[1..]);
      assert s == [s[0]] + s[1..];
      if s[0] == '\n' {
        assert ([""] + rest)[1..] == rest;
      } else {
        var ls := [[s[0]] + rest[0]] + rest[1..];
        assert ls[1..] == rest[1..];
        SplitCount([s[0]] + rest[0], ' ');
        SplitCount(rest[0], ' ');
      }
    }
  }

  /** An input of `data` holds one word per newline, one per space, plus one. */
  lemma WordsCount(data: string)
    ensures |Words(data)| == multiset(data)['\n'] + multiset(data)[' '] + 1
  {
    LinesWords(data);
    SplitCount(data, '\n');
  }

  // ---------------------------------------------------------------------------
  // Tallies

  /** The strings that occur in `s`. */
  ghost function Elements(s: seq<string>): set<string>
  {
    set x | x in s
  }

  /** A word's tally; a word never seen has tally 0. */
  function Get(m: map<string, int>, w: string): int
  {
    if w in m then m[w] else 0
  }

  /** One more occurrence of `w`. */
  function Bump(m: map<string, int>, w: string): (r: map<string, int>)
    ensures r.Keys == m.Keys + {w}
    ensures Get(r, w) == Get(m, w) + 1
    ensures forall v :: v != w ==> Get(r, v) == Get(m, v)
  {
    m[w := Get(m, w) + 1]
  }

  /** The tally `m` after counting each of `ws` in turn. */
  function Tally(m: map<string, int>, ws: seq<string>): (r: map<string, int>)
    ensures r.Keys == m.Keys + Elements(ws)
  {
    if ws == [] then m
    else Bump(Tally(m, ws[..|ws| - 1]), ws[|ws| - 1])
  }

  /**
   * Counting only adds, and exactly the occurrences: each word's tally grows
   * by the number of times it occurs in `ws`, and the words tallied are the
   * old ones and those of `ws`.
   */
  lemma {:induction false} TallyCounts(m: map<string, int>, ws: seq<string>)
    ensures forall w :: Get(Tally(m, ws), w) == Get(m, w) + multiset(ws)[w]
  {
    if ws != [] {
      var init := ws[..|ws| - 1];
      TallyCounts(m, init);
      assert ws == init + [ws[|ws| - 1]];
    }
  }

  /** The sum of all tallies in `m`. */
  ghost function Total(m: map<string, int>): int
    decreases |m|
  {
    if m == map[] then 0
    else
      var k :| k in m;
      m[k] + Total(m - {k})
  }

  /** The sum can be taken starting from any key. */
  lemma {:induction false} TotalRemove(m: map<string, int>, k: string)
    requires k in m
    ensures Total(m) == m[k] + Total(m - {k})
    decreases |m|
  {
    var j :| j in m && Total(m) == m[j] + Total(m - {j});
    if j != k {
      TotalRemove(m - {j}, k);
      TotalRemove(m - {k}, j);
      assert m - {j} - {k} == m - {k} - {j};
    }
  }

  /** One more occurrence adds one to the sum. */
  lemma TotalBump(m: map<string, int>, w: string)
    ensures Total(Bump(m, w)) == Total(m) + 1
  {
    TotalRemove(Bump(m, w), w);
    if w in m {
      TotalRemove(m, w);
      assert Bump(m, w) - {w} == m - {w};
    } else {
      assert Bump(m, w) - {w} == m;
    }
  }

  /** Counting `ws` adds `|ws|` to the sum. */
  lemma {:induction false} TallyTotal(m: map<string, int>, ws: seq<string>)
    ensures Total(Tally(m, ws)) == Total(m) + |ws|
  {
    if ws != [] {
      TallyTotal(m, ws[..|ws| - 1]);
      TotalBump(Tally(m, ws[..|ws| - 1]), ws[|ws| - 1]);
    }
  }

  /** A successful count of `data` adds one per newline, one per space, plus one to the sum of tallies. */
  lemma CountTotal(m: map<string, int>, data: string)
    ensures Total(Tally(m, Words(data))) == Total(m) + multiset(data)['\n'] + multiset(data)[' '] + 1
  {
    TallyTotal(m, Words(data));
    WordsCount(data);
  }

  // ---------------------------------------------------------------------------
  // Byte order and sorting

  /** `a` sorts no later than `b`: Go's string comparison, byte by byte. */
  predicate Below(a: string, b: string)
  {
    a == [] || (b != [] && (a[0] < b[0] || (a[0] == b[0] && Below(a[1..], b[1..]))))
  }

  lemma {:induction false} BelowReflexive(a: string)
    ensures Below(a, a)
  {
    if a != [] {
      BelowReflexive(a[1..]);
    }
  }

  lemma {:induction false} BelowTotal(a: string, b: string)
    ensures Below(a, b) || Below(b, a)
  {
    if a != [] && b != [] && a[0] == b[0] {
      BelowTotal(a[1..], b[1..]);
    }
  }

  lemma {:induction false} BelowAntisymmetric(a: string, b: string)
    requires Below(a, b) && Below(b, a)
    ensures a == b
  {
    if a != [] && b != [] {
      BelowAntisymmetric(a[1..], b[1..]);
      assert a == [a[0]] + a[1..] && b == [b[0]] + b[1..];
    }
  }

  lemma {:induction false} BelowTransitive(a: string, b: string, c: string)
    requires Below(a, b) && Below(b, c)
    ensures Below(a, c)
  {
    if a != [] && b != [] && c != [] && a[0] == b[0] == c[0] {
      BelowTransitive(a[1..], b[1..], c[1..]);
    }
  }

  /** Ascending byte order, duplicates allowed. */
  predicate Sorted(s: seq<string>)
  {
    forall i, j :: 0 <= i < j < |s| ==> Below(s[i], s[j])
  }

  lemma InsertFront(x: string, s: seq<string>)
    requires Sorted(s) && s != [] && Below(x, s[0])
    ensures Sorted([x] + s)
  {
    forall j | 0 < j < |s| ensures Below(x, s[j]) {
      BelowTransitive(x, s[0], s[j]);
    }
  }

  lemma InsertBehind(h: string, t: seq<string>, x: string, r: seq<string>)
    requires Sorted([h] + t) && Below(h, x) && Sorted(r)
    requires multiset(r) == multiset(t) + multiset{x}
    ensures Sorted([h] + r)
  {
    forall j | 0 <= j < |r| ensures Below(h, r[j]) {
      assert r[j] in multiset(r);
      if r[j] != x {
        assert r[j] in multiset(t);
        assert r[j] in t;
        var k :| 0 <= k < |t| && t[k] == r[j];
        assert ([h] + t)[0] == h && ([h] + t)[k + 1] == t[k];
      }
    }
  }

  /** `x` put into place in the sorted `s`. */
  function Insert(x: string, s: seq<string>): (r: seq<string>)
    requires Sorted(s)
    ensures Sorted(r) && multiset(r) == multiset(s) + multiset{x}
  {
    if s == [] then [x]
    else if Below(x, s[0]) then InsertFront(x, s); [x] + s
    else
      BelowTotal(x, s[0]);
      assert s == [s[0]] + s[1..];
      var r := Insert(x, s[1..]);
      InsertBehind(s[0], s[1..], x, r);
      [s[0]] + r
  }

  /** slices.Sort on strings: the same strings in ascending byte order. */
  function Sort(s: seq<string>): (r: seq<string>)
    ensures Sorted(r) && multiset(r) == multiset(s)
  {
    if s == [] then []
    else
      assert s == [s[0]] + s[1..];
      Insert(s[0], Sort(s[1..]))
  }

  /** There is only one way to sort: sorted sequences of the same strings are equal. */
  lemma {:induction false} SortedUnique(a: seq<string>, b: seq<string>)
    requires Sorted(a) && Sorted(b) && multiset(a) == multiset(b)
    ensures a == b
  {
    if a != [] {
      SameHead(a, b);
      SortedRest(a);
      SortedRest(b);
      SortedUnique(a[1..], b[1..]);
      assert a == [a[0]] + a[1..];
      assert b == [b[0]] + b[1..];
    }
  }

  /** The first element of a sorted sequence is below each of its elements. */
  lemma SortedFirst(a: seq<string>, x: string)
    requires Sorted(a) && x in a
    ensures Below(a[0], x)
  {
    var k :| 0 <= k < |a| && a[k] == x;
    if k == 0 {
      BelowReflexive(x);
    }
  }

  /** Two sorted sequences with the same elements start alike. */
  lemma SameHead(a: seq<string>, b: seq<string>)
    requires Sorted(a) && Sorted(b) && multiset(a) == multiset(b) && a != []
    ensures b != [] && a[0] == b[0]
  {
    assert a[0] in multiset(b);
    SortedFirst(b, a[0]);
    assert b[0] in multiset(a);
    SortedFirst(a, b[0]);
    BelowAntisymmetric(a[0], b[0]);
  }

  lemma SortedRest(a: seq<string>)
    requires Sorted(a) && a != []
    ensures Sorted(a[1..]) && multiset(a[1..]) == multiset(a) - multiset{a[0]}
  {
    assert a == [a[0]] + a[1..];
  }

  /** No string occurs twice. */
  ghost predicate NoDup(s: seq<string>)
  {
    forall x :: multiset(s)[x] <= 1
  }

  /** The keys of a set, in some order, each once. */
  ghost function Enumerate(keys: set<string>): (s: seq<string>)
    ensures NoDup(s) && Elements(s) == keys
    decreases |keys|
  {
    if keys == {} then []
    else
      var k :| k in keys;
      var rest := Enumerate(keys - {k});
      assert k !in rest by {
        assert k !in Elements(rest);
      }
      assert multiset([k] + rest) == multiset{k} + multiset(rest);
      assert Elements([k] + rest) == Elements(rest) + {k};
      [k] + rest
  }

  /** Two duplicate-free enumerations of the same set hold the same strings. */
  lemma SameKeys(a: seq<string>, b: seq<string>)
    requires NoDup(a) && NoDup(b) && Elements(a) == Elements(b)
    ensures multiset(a) == multiset(b)
  {
    forall x ensures multiset(a)[x] == multiset(b)[x] {
      assert x in multiset(a) <==> x in a;
      assert x in multiset(b) <==> x in b;
      assert x in a <==> x in Elements(a);
      assert x in b <==> x in Elements(b);
      assert multiset(a)[x] <= 1 && multiset(b)[x] <= 1;
      if x in a {
        assert multiset(a)[x] == 1 && multiset(b)[x] == 1;
      } else {
        assert multiset(a)[x] == 0 && multiset(b)[x] == 0;
      }
    }
  }

  /** The keys in ascending byte order, each once. */
  ghost function SortedKeys(keys: set<string>): (s: seq<string>)
    ensures Sorted(s) && NoDup(s) && Elements(s) == keys && |s| == |keys|
  {
    var e := Enumerate(keys);
    var s := Sort(e);
    assert forall x :: x in s <==> x in multiset(s);
    assert forall x :: x in e <==> x in multiset(e);
    DistinctCard(s);
    s
  }

  /** A duplicate-free sequence has as many elements as its set. */
  lemma {:induction false} DistinctCard(s: seq<string>)
    requires NoDup(s)
    ensures |Elements(s)| == |s|
  {
    if s != [] {
      assert s == [s[0]] + s[1..];
      assert multiset(s) == multiset([s[0]]) + multiset(s[1..]);
      assert multiset(s)[s[0]] <= 1;
      assert multiset(s[1..])[s[0]] == 0;
      assert NoDup(s[1..]) by {
        forall x ensures multiset(s[1..])[x] <= 1 {
          assert multiset(s)[x] == multiset([s[0]])[x] + multiset(s[1..])[x];
        }
      }
      DistinctCard(s[1..]);
      assert Elements(s) == Elements(s[1..]) + {s[0]};
    }
  }

  // ---------------------------------------------------------------------------
  // The report

  /** The text of the line for word `k` with tally `n`, without its newline. */
  function LineBody(k: string, n: int): (b: string)
    ensures '\n' in b <==> '\n' in k
  {
    var d := Decimal.FromInt(n);
    assert '\n' !in d;
    "word '" + k + "' has " + d + " occurrences"
  }

  /** The line for word `k`: `word '<k>' has <n> occurrences` and a newline. */
  function Line(k: string, n: int): (l: string)
    ensures '\n' !in k ==> forall i :: 0 <= i < |l| ==> (l[i] == '\n' <==> i == |l| - 1)
  {
    LineBody(k, n) + "\n"
  }

  /** The lines for the words `ks` in that order. */
  function RenderLines(ks: seq<string>, m: map<string, int>): string
    requires forall i :: 0 <= i < |ks| ==> ks[i] in m
  {
    if ks == [] then ""
    else RenderLines(ks[..|ks| - 1], m) + Line(ks[|ks| - 1], m[ks[|ks| - 1]])
  }

  /** What String returns for the tally `m`: one line per word, in ascending byte order. */
  ghost function Report(m: map<string, int>): (r: string)
    ensures r == "" <==> m == map[]
  {
    RenderLines(SortedKeys(m.Keys), m)
  }

  /** The texts of the lines for `ks`, without their newlines. */
  function Bodies(ks: seq<string>, m: map<string, int>): (bs: seq<string>)
    requires forall i :: 0 <= i < |ks| ==> ks[i] in m
  {
    seq(|ks|, i requires 0 <= i < |ks| => LineBody(ks[i], m[ks[i]]))
  }

  /** The texts for `ks` are those for all but its last word, then the last word's. */
  lemma BodiesLast(ks: seq<string>, m: map<string, int>)
    requires ks != [] && forall i :: 0 <= i < |ks| ==> ks[i] in m
    ensures Bodies(ks, m) == Bodies(ks[..|ks| - 1], m) + [LineBody(ks[|ks| - 1], m[ks[|ks| - 1]])]
  {
    var init := ks[..|ks| - 1];
    var a, b := Bodies(ks, m), Bodies(init, m);
    forall i | 0 <= i < |b|
      ensures a[i] == b[i]
    {
      assert init[i] == ks[i];
    }
    Snoc(a, b, LineBody(ks[|ks| - 1], m[ks[|ks| - 1]]));
  }

  /** A sequence that agrees with `init` and then ends in `last` is `init + [last]`. */
  lemma Snoc<T>(s: seq<T>, init: seq<T>, last: T)
    requires |s| == |init| + 1 && s[|init|] == last
    requires forall i :: 0 <= i < |init| ==> s[i] == init[i]
    ensures s == init + [last]
  {
  }

  /** Text followed by the lines for `ks` splits back into those lines' texts and the text. */
  lemma {:induction false} RenderSplit(ks: seq<string>, m: map<string, int>, t: string)
    requires forall i :: 0 <= i < |ks| ==> ks[i] in m && '\n' !in ks[i]
    requires '\n' !in t
    ensures Split(RenderLines(ks, m) + t, '\n') == Bodies(ks, m) + [t]
  {
    if ks == [] {
      assert RenderLines(ks, m) + t == t;
      SplitNone(t, '\n');
    } else {
      var init := ks[..|ks| - 1];
      var k := ks[|ks| - 1];
      var body := LineBody(k, m[k]);
      RenderSplit(init, m, body);
      var before := RenderLines(init, m) + body;
      BodiesLast(ks, m);
      var r := RenderLines(init, m);
      assert r + (body + "\n") + t == r + body + ['\n'] + t;
      SplitSep(before, '\n', t);
      SplitNone(t, '\n');
    }
  }

  /**
   * The report is exactly one line per word, in ascending byte order, each
   * of the form `word '<key>' has <count> occurrences`, and nothing after
   * the last newline.
   */
  lemma ReportLines(m: map<string, int>)
    requires forall k :: k in m ==> '\n' !in k
    ensures var ls := Split(Report(m), '\n'); var ks := SortedKeys(m.Keys);
      |ls| == |m| + 1 && ls[|m|] == "" &&
      forall i :: 0 <= i < |ks| ==> ls[i] == LineBody(ks[i], m[ks[i]])
  {
    var ks := SortedKeys(m.Keys);
    KeysClean(m, ks);
    RenderSplit(ks, m, "");
    assert Report(m) + "" == Report(m);
  }

  lemma KeysClean(m: map<string, int>, ks: seq<string>)
    requires forall k :: k in m ==> '\n' !in k
    requires Elements(ks) == m.Keys
    ensures forall i :: 0 <= i < |ks| ==> ks[i] in m && '\n' !in ks[i]
  {
    assert forall i :: 0 <= i < |ks| ==> ks[i] in Elements(ks);
  }

  // ---------------------------------------------------------------------------
  // The counter

  /** Every tallied word has been seen, and holds neither separator. */
  ghost predicate GoodTally(m: map<string, int>)
  {
    forall w :: w in m ==> m[w] >= 1 && '\n' !in w && ' ' !in w
  }

  lemma BumpGood(m: map<string, int>, w: string)
    requires GoodTally(m) && '\n' !in w && ' ' !in w
    ensures GoodTally(Bump(m, w))
  {
  }

  /** Counting words that hold neither separator keeps a tally well formed. */
  lemma {:induction false} TallyGood(m: map<string, int>, ws: seq<string>)
    requires GoodTally(m)
    requires forall i :: 0 <= i < |ws| ==> '\n' !in ws[i] && ' ' !in ws[i]
    ensures GoodTally(Tally(m, ws))
    decreases |ws|
  {
    if ws != [] {
      var init := ws[..|ws| - 1];
      assert forall i :: 0 <= i < |init| ==> init[i] == ws[i];
      TallyGood(m, init);
      BumpGood(Tally(m, init), ws[|ws| - 1]);
    }
  }

  /** Counting one more word extends the tally by one step. */
  lemma TallyStep(m: map<string, int>, words: seq<string>, j: nat, counts: map<string, int>)
    requires j < |words| && counts == Tally(m, words[..j])
    ensures Bump(counts, words[j]) == Tally(m, words[..j + 1])
  {
    assert words[..j + 1][..j] == words[..j];
  }

  /** Once every line is counted, the tally is that of all the words, and still well formed. */
  lemma CountDone(start: map<string, int>, data: string, i: nat, m: map<string, int>)
    requires GoodTally(start)
    requires i == |Split(data, '\n')| && m == Tally(start, WordsOf(Split(data, '\n')[..i]))
    ensures m == Tally(start, Words(data)) && GoodTally(m)
  {
    var lines := Split(data, '\n');
    assert lines[..|lines|] == lines;
    TallyGood(start, Words(data));
  }

  /** Counting two batches of words one after the other is counting them together. */
  lemma {:induction false} TallyAppend(m: map<string, int>, a: seq<string>, b: seq<string>)
    ensures Tally(Tally(m, a), b) == Tally(m, a + b)
    decreases |b|
  {
    if b == [] {
      assert a + b == a;
    } else {
      var init := b[..|b| - 1];
      assert (a + b)[..|a + b| - 1] == a + init;
      assert (a + b)[|a + b| - 1] == b[|b| - 1];
      TallyAppend(m, a, init);
    }
  }

  /** The words of one more line follow the words of the lines before it. */
  lemma WordsStep(lines: seq<string>, i: nat)
    requires i < |lines|
    ensures WordsOf(lines[..i + 1]) == WordsOf(lines[..i]) + Split(lines[i], ' ')
  {
    assert lines[..i + 1] == lines[..i] + [lines[i]];
    WordsOfAppend(lines[..i], [lines[i]]);
    assert [lines[i]][1..] == [];
  }

  /** A tally of the first `i` lines, then of every word of line `i`, is the tally of the first `i + 1` lines. */
  lemma LineDone(start: map<string, int>, lines: seq<string>, i: nat, before: map<string, int>, j: nat, m: map<string, int>)
    requires i < |lines| && j == |Split(lines[i], ' ')|
    requires before == Tally(start, WordsOf(lines[..i]))
    requires m == Tally(before, Split(lines[i], ' ')[..j])
    ensures m == Tally(start, WordsOf(lines[..i + 1]))
  {
    var words := Split(lines[i], ' ');
    WordsStep(lines, i);
    assert words[..|words|] == words;
    TallyAppend(start, WordsOf(lines[..i]), words);
  }

  /** The words of a line without a newline hold neither separator. */
  lemma LineClean(line: string)
    ensures '\n' !in line ==>
      forall j :: 0 <= j < |Split(line, ' ')| ==> '\n' !in Split(line, ' ')[j] && ' ' !in Split(line, ' ')[j]
  {
    if '\n' !in line {
      forall j | 0 <= j < |Split(line, ' ')|
        ensures '\n' !in Split(line, ' ')[j]
      {
        WordClean(line, j);
      }
    }
  }

  /** A word of a line holds neither separator. */
  lemma WordClean(line: string, j: nat)
    requires '\n' !in line && j < |Split(line, ' ')|
    ensures '\n' !in Split(line, ' ')[j] && ' ' !in Split(line, ' ')[j]
  {
    var w := Split(line, ' ')[j];
    forall c | c in w ensures c != '\n' {
      SplitWithin(line, ' ', j, c);
    }
  }

  /** Rendering one more key appends its line. */
  lemma RenderStep(ks: seq<string>, m: map<string, int>, i: nat, r: string)
    requires i < |ks| && forall j :: 0 <= j < |ks| ==> ks[j] in m
    requires r == RenderLines(ks[..i], m)
    ensures r + Line(ks[i], m[ks[i]]) == RenderLines(ks[..i + 1], m)
  {
    assert ks[..i + 1][..i] == ks[..i];
  }

  /** One more key, not collected before, keeps the collection duplicate-free. */
  lemma AddKey(keys: seq<string>, k: string)
    requires NoDup(keys) && k !in Elements(keys)
    ensures NoDup(keys + [k]) && Elements(keys + [k]) == Elements(keys) + {k}
  {
    assert k !in keys;
    assert multiset(keys + [k]) == multiset(keys) + multiset{k};
  }

  /** Moving one key from the keys left to the keys collected keeps String's first loop on track. */
  lemma KeyStep(keys: seq<string>, rest: set<string>, all: set<string>, k: string)
    requires NoDup(keys) && Elements(keys) + rest == all && Elements(keys) !! rest
    requires k in rest
    ensures NoDup(keys + [k]) && Elements(keys + [k]) + (rest - {k}) == all && Elements(keys + [k]) !! rest - {k}
    ensures |rest - {k}| < |rest|
  {
    AddKey(keys, k);
  }

  /** The lines rendered for every sorted key are the report. */
  lemma RenderDone(keys: seq<string>, m: map<string, int>, i: nat, r: string)
    requires NoDup(keys) && Elements(keys) == m.Keys
    requires i == |Sort(keys)| && forall j :: 0 <= j < |Sort(keys)| ==> Sort(keys)[j] in m
    requires r == RenderLines(Sort(keys)[..i], m)
    ensures r == Report(m)
  {
    var sorted := Sort(keys);
    assert sorted[..|sorted|] == sorted;
    SortKeys(keys, m.Keys);
  }

  /** The keys collected by String, once sorted, are the tally's keys in ascending order. */
  lemma SortKeys(keys: seq<string>, all: set<string>)
    requires NoDup(keys) && Elements(keys) == all
    ensures Sort(keys) == SortedKeys(all)
  {
    SameKeys(keys, Enumerate(all));
    SortedUnique(Sort(keys), SortedKeys(all));
  }

  /** Sorting the collected keys keeps every one of them a key. */
  lemma SortedIn(keys: seq<string>, all: set<string>)
    requires Elements(keys) == all
    ensures forall j :: 0 <= j < |Sort(keys)| ==> Sort(keys)[j] in all
  {
    var s := Sort(keys);
    forall j | 0 <= j < |s| ensures s[j] in all {
      assert s[j] in multiset(s);
      assert s[j] in keys;
      assert s[j] in Elements(keys);
    }
  }

  class BaselineCounter {
    /** The tally: how many times each word has been seen. */
    var counts: map<string, int>

    /** Every tallied word has been seen, and holds neither separator. */
    ghost predicate Valid()
      reads this
    {
      GoodTally(counts)
    }

    /** NewBaselineCounter: an empty tally. */
    constructor()
      ensures Valid() && counts == map[]
    {
      counts := map[];
    }

    /**
     * Count: a failed read leaves the tally alone and passes the error on;
     * otherwise every word of every line is counted once more.
     */
    method Count(input: ReadOutcome) returns (err: Option<IoError>)
      requires Valid()
      modifies this
      ensures Valid()
      ensures input.Failed? ==> err == Some(input.error) && counts == old(counts)
      ensures input.Data? ==> err == None && counts == Tally(old(counts), Words(input.bytes))
    {
      if input.Failed? {
        return Some(input.error);
      }
      var data := input.bytes;
      var lines := Split(data, '\n');
      ghost var start := counts;
      var i := 0;
      while i < |lines|
        invariant 0 <= i <= |lines|
        invariant counts == Tally(start, WordsOf(lines[..i]))
      {
        var words := Split(lines[i], ' ');
        ghost var before := counts;
        var j := 0;
        while j < |words|
          invariant 0 <= j <= |words|
          invariant counts == Tally(before, words[..j])
        {
          TallyStep(before, words, j, counts);
          counts := Bump(counts, words[j]);
          j := j + 1;
        }
        LineDone(start, lines, i, before, j, counts);
        i := i + 1;
      }
      CountDone(start, data, i, counts);
      return None;
    }

    /** The key-collecting loop of String: every tallied word once, in whatever order the map yields them. */
    method Keys() returns (keys: seq<string>)
      ensures NoDup(keys) && Elements(keys) == counts.Keys
    {
      keys := [];
      var rest := counts.Keys;
      while rest != {}
        invariant NoDup(keys)
        invariant Elements(keys) + rest == counts.Keys
        invariant Elements(keys) !! rest
        decreases |rest|
      {
        var k :| k in rest;
        KeyStep(keys, rest, counts.Keys, k);
        keys := keys + [k];
        rest := rest - {k};
      }
    }

    /** String: one line per tallied word, in ascending byte order. */
    method String() returns (r: string)
      ensures r == Report(counts)
    {
      var keys := Keys();
      var sorted := Sort(keys);
      SortedIn(keys, counts.Keys);
      r := "";
      var i := 0;
      while i < |sorted|
        invariant 0 <= i <= |sorted|
        invariant forall j :: 0 <= j < |sorted| ==> sorted[j] in counts
        invariant r == RenderLines(sorted[..i], counts)
      {
        RenderStep(sorted, counts, i, r);
        r := r + Line(sorted[i], counts[sorted[i]]);
        i := i + 1;
      }
      RenderDone(keys, counts, i, r);
    }
  }
}
