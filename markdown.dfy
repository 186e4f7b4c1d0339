/** The markdown-to-HTML conversion applied to a resume version before it
    is rendered: four line-anchored passes that turn `# `, `## `, `### ` and
    `* ` lines into block tags, two inline passes for `**strong**` and
    `*emphasis*`, and a last pass that turns every line break into `<br>`.
    Lines end at `\n` only. */
module Markdown {
  import opened Common

  predicate NoBreak(s: string) {
    '\n' !in s
  }

  /** The lines of s: the pieces between line breaks. */
  function SplitLines(s: string): (r: seq<string>)
    ensures |r| >= 1
    ensures forall i :: 0 <= i < |r| ==> NoBreak(r[i])
    decreases |s|
  {
    if s == [] then [[]]
    else
      var rest := SplitLines(s[1..]);
      if s[0] == '\n' then [[]] + rest else [[s[0]] + rest[0]] + rest[1..]
  }

  /** The lines put back together with `sep` between them. */
  function Join(lines: seq<string>, sep: string): string
    requires |lines| >= 1
    decreases |lines|
  {
    if |lines| == 1 then lines[0] else lines[0] + sep + Join(lines[1..], sep)
  }

  /** Splitting and joining again gives the text back. */
  lemma {:induction false} JoinSplit(s: string)
    ensures Join(SplitLines(s), "\n") == s
    decreases |s|
  {
    if s != [] {
      JoinSplit(s[1..]);
      var rest := SplitLines(s[1..]);
      if s[0] == '\n' {
        assert SplitLines(s) == [[]] + rest;
        assert Join([[]] + rest, "\n") == [] + "\n" + Join(rest, "\n");
      } else {
        var r := [[s[0]] + rest[0]] + rest[1..];
        if |rest| == 1 {
          assert Join(r, "\n") == [s[0]] + rest[0];
        } else {
          assert r[1..] == rest[1..];
          assert Join(rest, "\n") == rest[0] + "\n" + Join(rest[1..], "\n");
          assert Join(r, "\n") == [s[0]] + rest[0] + "\n" + Join(rest[1..], "\n");
        }
        assert s == [s[0]] + s[1..];
      }
    }
  }

  /** Splitting a line without breaks gives that line alone. */
  lemma {:induction false} SplitLine(line: string)
    requires NoBreak(line)
    ensures SplitLines(line) == [line]
    decreases |line|
  {
    if line != [] {
      SplitLine(line[1..]);
      assert [line[0]] + line[1..] == line;
    }
  }

  /** Splitting `line + "\n" + rest` gives the line, then the lines of rest. */
  lemma {:induction false} SplitCons(line: string, rest: string)
    requires NoBreak(line)
    ensures SplitLines(line + "\n" + rest) == [line] + SplitLines(rest)
    decreases |line|
  {
    if line == [] {
      assert line + "\n" + rest == "\n" + rest;
      assert ("\n" + rest)[1..] == rest;
    } else {
      var s := line + "\n" + rest;
      assert s[0] == line[0] && s[1..] == line[1..] + "\n" + rest;
      SplitCons(line[1..], rest);
      assert [line[0]] + line[1..] == line;
    }
  }

  /** Joining lines without breaks and splitting again gives the lines back. */
  lemma {:induction false} SplitJoin(lines: seq<string>)
    requires |lines| >= 1 && forall i :: 0 <= i < |lines| ==> NoBreak(lines[i])
    ensures SplitLines(Join(lines, "\n")) == lines
    decreases |lines|
  {
    if |lines| == 1 {
      SplitLine(lines[0]);
    } else {
      SplitJoin(lines[1..]);
      SplitCons(lines[0], Join(lines[1..], "\n"));
      assert [lines[0]] + lines[1..] == lines;
    }
  }

  /** One line-anchored rule: a line starting with `prefix` becomes the rest
      of the line wrapped in `tag`. */
  datatype Rule = Rule(prefix: string, tag: string)

  const H1 := Rule("# ", "h1")
  const H2 := Rule("## ", "h2")
  const H3 := Rule("### ", "h3")
  const Item := Rule("* ", "li")

  function Wrap(tag: string, inner: string): string {
    "<" + tag + ">" + inner + "</" + tag + ">"
  }

  /** The rule applied to one line. */
  function RewriteLine(rule: Rule, line: string): (r: string)
    ensures NoBreak(rule.tag) && NoBreak(line) ==> NoBreak(r)
  {
    if rule.prefix <= line then Wrap(rule.tag, line[|rule.prefix|..]) else line
  }

  function RewriteLines(rule: Rule, lines: seq<string>): (r: seq<string>)
    ensures |r| == |lines|
    ensures forall i :: 0 <= i < |r| ==> r[i] == RewriteLine(rule, lines[i])
  {
    seq(|lines|, i requires 0 <= i < |lines| => RewriteLine(rule, lines[i]))
  }

  /** `replace(/^prefix(.*$)/gm, '<tag>$1</tag>')`: the rule applied to
      every line of the text; text in which no line starts with the prefix
      is left as it is. */
  function ReplaceLines(rule: Rule, s: string): (r: string)
    ensures (forall i :: 0 <= i < |SplitLines(s)| ==> !(rule.prefix <= SplitLines(s)[i])) ==> r == s
  {
    var lines := SplitLines(s);
    assert (forall i :: 0 <= i < |lines| ==> !(rule.prefix <= lines[i])) ==> RewriteLines(rule, lines) == lines;
    JoinSplit(s);
    Join(RewriteLines(rule, lines), "\n")
  }

  /** The four block passes, in the order the converter runs them. They act
      line by line, and each line is rewritten by the first rule that
      matches it: a line produced by one rule starts with `<`, which no
      later prefix matches. */
  function Blocks(s: string): (r: string)
    ensures r == Join(BlockLines(SplitLines(s)), "\n")
  {
    var l0 := SplitLines(s);
    var l1 := RewriteLines(H1, l0);
    var l2 := RewriteLines(H2, l1);
    var l3 := RewriteLines(H3, l2);
    var s1 := ReplaceLines(H1, s);
    RewriteKeepsLines(H1, l0);
    ReplaceJoined(H2, l1);
    var s2 := ReplaceLines(H2, s1);
    RewriteKeepsLines(H2, l1);
    ReplaceJoined(H3, l2);
    var s3 := ReplaceLines(H3, s2);
    RewriteKeepsLines(H3, l2);
    ReplaceJoined(Item, l3);
    BlockRulesOnLines(l0);
    ReplaceLines(Item, s3)
  }

  /** What the block passes do to one line: the first rule whose prefix it
      starts with, or nothing; the line is changed exactly when some prefix
      matches, and stays a line. */
  function BlockLine(line: string): (r: string)
    ensures r == line <==> !(H1.prefix <= line || H2.prefix <= line || H3.prefix <= line || Item.prefix <= line)
    ensures NoBreak(line) ==> NoBreak(r)
  {
    if H1.prefix <= line then Wrap("h1", line[2..])
    else if H2.prefix <= line then Wrap("h2", line[3..])
    else if H3.prefix <= line then Wrap("h3", line[4..])
    else if Item.prefix <= line then Wrap("li", line[2..])
    else line
  }

  /** Applying a rule to text made of given lines rewrites each line. */
  lemma ReplaceJoined(rule: Rule, lines: seq<string>)
    requires |lines| >= 1 && forall i :: 0 <= i < |lines| ==> NoBreak(lines[i])
    ensures ReplaceLines(rule, Join(lines, "\n")) == Join(RewriteLines(rule, lines), "\n")
  {
    SplitJoin(lines);
  }

  /** The four rules applied in turn to one line give the first match. */
  lemma BlockRulesOnLine(line: string)
    ensures RewriteLine(Item, RewriteLine(H3, RewriteLine(H2, RewriteLine(H1, line)))) == BlockLine(line)
  {
    var l1 := RewriteLine(H1, line);
    var l2 := RewriteLine(H2, l1);
    var l3 := RewriteLine(H3, l2);
    if H1.prefix <= line {
      assert l1[0] == '<' && l2 == l1 && l3 == l1;
    } else if H2.prefix <= line {
      assert l2[0] == '<' && l3 == l2;
    } else if H3.prefix <= line {
      assert l3[0] == '<';
    }
  }

  function BlockLines(lines: seq<string>): (r: seq<string>)
    ensures |r| == |lines| && forall i :: 0 <= i < |r| ==> r[i] == BlockLine(lines[i])
  {
    seq(|lines|, i requires 0 <= i < |lines| => BlockLine(lines[i]))
  }

  /** The four rules applied in turn to lines give the first match on
      each line. */
  lemma BlockRulesOnLines(lines: seq<string>)
    ensures RewriteLines(Item, RewriteLines(H3, RewriteLines(H2, RewriteLines(H1, lines))))
         == BlockLines(lines)
  {
    var l4 := RewriteLines(Item, RewriteLines(H3, RewriteLines(H2, RewriteLines(H1, lines))));
    forall i | 0 <= i < |lines| ensures l4[i] == BlockLine(lines[i]) {
      BlockRulesOnLine(lines[i]);
    }
  }

  /** The lines a rule produces from lines have no breaks either. */
  lemma RewriteKeepsLines(rule: Rule, lines: seq<string>)
    requires rule in {H1, H2, H3, Item}
    requires forall i :: 0 <= i < |lines| ==> NoBreak(lines[i])
    ensures forall i :: 0 <= i < |lines| ==> NoBreak(RewriteLines(rule, lines)[i])
  {
    assert NoBreak(rule.tag);
  }

  /** Scans from `from` for `delim`, giving up at a line break (`.*?` does
      not cross lines): a place found holds `delim`, at or after `from`. */
  function FindClose(s: string, from: nat, delim: string): (r: Option<nat>)
    requires from <= |s| && |delim| >= 1 && delim[0] != '\n'
    ensures r.Some? ==> from <= r.value && r.value + |delim| <= |s| && s[r.value..r.value + |delim|] == delim
    decreases |s| - from
  {
    if from + |delim| > |s| then None
    else if s[from..from + |delim|] == delim then Some(from)
    else if s[from] == '\n' then None
    else FindClose(s, from + 1, delim)
  }

  /** The scan is lazy: the place found is the nearest `delim` at or after
      `from`, with no line break before it, and the scan finds nothing only
      when every later `delim` lies past a line break. */
  lemma {:induction false} FindCloseFirst(s: string, from: nat, delim: string)
    requires from <= |s| && |delim| >= 1 && delim[0] != '\n'
    ensures var r := FindClose(s, from, delim);
      && (r.Some? ==> forall j: nat :: from <= j < r.value ==> s[j] != '\n' && !DelimAt(s, j, delim))
      && (r.None? ==> forall j: nat :: from <= j && DelimAt(s, j, delim) ==> exists i :: from <= i < j && s[i] == '\n')
    decreases |s| - from
  {
    if from + |delim| > |s| {
    } else if s[from..from + |delim|] == delim {
    } else if s[from] == '\n' {
      forall j: nat | from <= j && DelimAt(s, j, delim) ensures exists i :: from <= i < j && s[i] == '\n' {
        assert j != from;
      }
    } else {
      FindCloseFirst(s, from + 1, delim);
      assert !DelimAt(s, from, delim);
      var r := FindClose(s, from, delim);
      if r.None? {
        forall j: nat | from <= j && DelimAt(s, j, delim) ensures exists i :: from <= i < j && s[i] == '\n' {
          assert j != from;
          var i :| from + 1 <= i < j && s[i] == '\n';
        }
      }
    }
  }

  /** `delim` occurs in s at position j. */
  predicate DelimAt(s: string, j: nat, delim: string) {
    j + |delim| <= |s| && s[j..j + |delim|] == delim
  }

  /** Where the pair opened at the start of s closes, if s starts with
      `delim` and the same line holds another one. */
  function PairAt(s: string, delim: string): (r: Option<nat>)
    requires |delim| >= 1 && delim[0] != '\n'
    ensures r.Some? ==> |delim| <= r.value && r.value + |delim| <= |s|
    ensures r.Some? ==> s[..|delim|] == delim && s[r.value..r.value + |delim|] == delim
  {
    if |s| >= |delim| && s[..|delim|] == delim then FindClose(s, |delim|, delim) else None
  }

  /** A pair closes at the first later `delim` on its line, and there is no
      pair only when no later `delim` lies on that line. */
  lemma PairAtFirst(s: string, delim: string)
    requires |delim| >= 1 && delim[0] != '\n'
    ensures var r := PairAt(s, delim);
      && (r.Some? ==> forall j: nat :: |delim| <= j < r.value ==> s[j] != '\n' && !DelimAt(s, j, delim))
      && (r.None? && DelimAt(s, 0, delim) ==>
            forall j: nat :: |delim| <= j && DelimAt(s, j, delim) ==> exists i :: |delim| <= i < j && s[i] == '\n')
  {
    if |s| >= |delim| && s[..|delim|] == delim {
      FindCloseFirst(s, |delim|, delim);
    }
  }

  /** `replace(/delim(.*?)delim/g, '<tag>$1</tag>')`: scanning from the
      left, a `delim` that has a closing `delim` later on the same line
      starts a match ending at the nearest such closing one; the text between
      is wrapped in `tag` and the scan resumes after the match. */
  function ReplacePairs(s: string, delim: string, tag: string): (r: string)
    requires |delim| >= 1 && delim[0] != '\n'
    ensures delim[0] !in s ==> r == s
    ensures NoBreak(s) && NoBreak(tag) ==> NoBreak(r)
    decreases |s|
  {
    if s == [] then s
    else
      match PairAt(s, delim)
      case Some(q) =>
        assert s[..|delim|][0] == s[0];
        assert NoBreak(s) ==> NoBreak(s[|delim|..q]) && NoBreak(s[q + |delim|..]);
        Wrap(tag, s[|delim|..q]) + ReplacePairs(s[q + |delim|..], delim, tag)
      case None =>
        assert [s[0]] + s[1..] == s;
        [s[0]] + ReplacePairs(s[1..], delim, tag)
  }

  /** `replace(/\n/g, '<br>')` */
  function ReplaceBreaks(s: string): (r: string)
    ensures NoBreak(r)
    decreases |s|
  {
    if s == [] then [] else BreakOf(s[0]) + ReplaceBreaks(s[1..])
  }

  /** What one character becomes under `replace(/\n/g, '<br>')`. */
  function BreakOf(c: char): (r: string)
    ensures NoBreak(r)
    ensures c != '\n' ==> r == [c]
  {
    if c == '\n' then "<br>" else [c]
  }

  /** The nearest closing delimiter is looked for on the current line only:
      what follows the line break does not matter. */
  lemma {:induction false} FindCloseOnLine(a: string, b: string, from: nat, delim: string)
    requires from <= |a| && |delim| >= 1 && NoBreak(a) && NoBreak(delim)
    ensures FindClose(a + "\n" + b, from, delim) == FindClose(a, from, delim)
    decreases |a| - from
  {
    var s := a + "\n" + b;
    if from + |delim| > |a| {
      if from + |delim| <= |s| {
        assert s[from..from + |delim|][|a| - from] == '\n';
        if from < |a| {
          assert s[from] == a[from];
          FindCloseOnLine(a, b, from + 1, delim);
        }
      }
    } else {
      assert s[from..from + |delim|] == a[from..from + |delim|];
      if s[from..from + |delim|] != delim && from < |a| {
        assert s[from] == a[from];
        FindCloseOnLine(a, b, from + 1, delim);
      }
    }
  }

  lemma PairAtOnLine(a: string, b: string, delim: string)
    requires a != [] && |delim| >= 1 && NoBreak(a) && NoBreak(delim)
    ensures PairAt(a + "\n" + b, delim) == PairAt(a, delim)
  {
    var s := a + "\n" + b;
    var d := |delim|;
    if d <= |a| {
      assert s[..d] == a[..d];
      FindCloseOnLine(a, b, d, delim);
    } else if d <= |s| {
      assert s[..d][|a|] == '\n';
    }
  }

  /** Inline markup never spans a line break: the pass acts on each line
      separately. */
  lemma {:induction false} ReplacePairsOnLine(a: string, b: string, delim: string, tag: string)
    requires |delim| >= 1 && NoBreak(a) && NoBreak(delim)
    ensures ReplacePairs(a + "\n" + b, delim, tag)
         == ReplacePairs(a, delim, tag) + "\n" + ReplacePairs(b, delim, tag)
    decreases |a|, 1
  {
    if a == [] {
      var s := a + "\n" + b;
      assert s == "\n" + b && s[1..] == b;
      assert PairAt(s, delim).None? by {
        if |delim| <= |s| {
          assert s[..|delim|][0] == '\n';
        }
      }
    } else {
      PairAtOnLine(a, b, delim);
      if PairAt(a, delim).Some? {
        PairOnLine(a, b, delim, tag);
      } else {
        CharOnLine(a, b, delim, tag);
      }
    }
  }

  lemma {:induction false} PairOnLine(a: string, b: string, delim: string, tag: string)
    requires |delim| >= 1 && NoBreak(a) && NoBreak(delim) && a != []
    requires PairAt(a, delim).Some? && PairAt(a + "\n" + b, delim) == PairAt(a, delim)
    ensures ReplacePairs(a + "\n" + b, delim, tag)
         == ReplacePairs(a, delim, tag) + "\n" + ReplacePairs(b, delim, tag)
    decreases |a|, 0
  {
    var s := a + "\n" + b;
    var d, q := |delim|, PairAt(a, delim).value;
    var tail := a[q + d..];
    var w := Wrap(tag, a[d..q]);
    var rt, rb := ReplacePairs(tail, delim, tag), ReplacePairs(b, delim, tag);
    SliceOfJoined(a, "\n", b, d, q);
    DropOfJoined(a, "\n", b, q + d);
    UnfoldPair(s, delim, tag, q, a[d..q], tail + "\n" + b);
    UnfoldPair(a, delim, tag, q, a[d..q], tail);
    ReplacePairsOnLine(tail, b, delim, tag);
    Regroup(w, rt, "\n", rb);
  }

  lemma {:induction false} CharOnLine(a: string, b: string, delim: string, tag: string)
    requires |delim| >= 1 && NoBreak(a) && NoBreak(delim) && a != []
    requires PairAt(a, delim).None? && PairAt(a + "\n" + b, delim).None?
    ensures ReplacePairs(a + "\n" + b, delim, tag)
         == ReplacePairs(a, delim, tag) + "\n" + ReplacePairs(b, delim, tag)
    decreases |a|, 0
  {
    var s := a + "\n" + b;
    var tail := a[1..];
    SliceOfJoined(a, "\n", b, 0, 1);
    DropOfJoined(a, "\n", b, 1);
    UnfoldChar(s, delim, tag);
    UnfoldChar(a, delim, tag);
    ReplacePairsOnLine(tail, b, delim, tag);
    Regroup([a[0]], ReplacePairs(tail, delim, tag), "\n", ReplacePairs(b, delim, tag));
  }

  /** One step of the pass where a pair opens at the start. */
  lemma UnfoldPair(s: string, delim: string, tag: string, q: nat, inner: string, rest: string)
    requires |delim| >= 1 && delim[0] != '\n' && PairAt(s, delim) == Some(q)
    requires inner == s[|delim|..q] && rest == s[q + |delim|..]
    ensures ReplacePairs(s, delim, tag) == Wrap(tag, inner) + ReplacePairs(rest, delim, tag)
  {
    PairStep(s, delim, tag, q);
    Congruent(tag, s[|delim|..q], inner, s[q + |delim|..], rest, delim);
  }

  lemma Congruent(tag: string, inner1: string, inner2: string, rest1: string, rest2: string, delim: string)
    requires |delim| >= 1 && delim[0] != '\n'
    requires inner1 == inner2 && rest1 == rest2
    ensures Wrap(tag, inner1) + ReplacePairs(rest1, delim, tag) == Wrap(tag, inner2) + ReplacePairs(rest2, delim, tag)
  {
  }

  lemma PairStep(s: string, delim: string, tag: string, q: nat)
    requires |delim| >= 1 && delim[0] != '\n' && PairAt(s, delim) == Some(q)
    ensures ReplacePairs(s, delim, tag) == Wrap(tag, s[|delim|..q]) + ReplacePairs(s[q + |delim|..], delim, tag)
  {
    assert s != [];
    var r := ReplacePairs(s, delim, tag);
    assert r == Wrap(tag, s[|delim|..q]) + ReplacePairs(s[q + |delim|..], delim, tag);
  }

  /** One step of the pass where no pair opens at the start. */
  lemma UnfoldChar(s: string, delim: string, tag: string)
    requires |delim| >= 1 && delim[0] != '\n' && PairAt(s, delim).None? && s != []
    ensures ReplacePairs(s, delim, tag) == [s[0]] + ReplacePairs(s[1..], delim, tag)
  {
  }

  lemma Regroup(w: string, x: string, y: string, z: string)
    ensures w + (x + y + z) == (w + x) + y + z
  {
  }

  lemma SliceOfJoined(a: string, sep: string, b: string, i: nat, j: nat)
    requires i <= j <= |a|
    ensures (a + sep + b)[i..j] == a[i..j]
  {
  }

  lemma DropOfJoined(a: string, sep: string, b: string, i: nat)
    requires i <= |a|
    ensures (a + sep + b)[i..] == a[i..] + sep + b
  {
  }

  /** What the inline passes make of one line: a line without `*` is left
      as it is, and a line stays a line. */
  function InlineLine(line: string): (r: string)
    ensures '*' !in line ==> r == line
    ensures NoBreak(line) ==> NoBreak(r)
  {
    ReplacePairs(ReplacePairs(line, "**", "strong"), "*", "em")
  }

  /** A delimiter, text on one line without the delimiter's first
      character, and the delimiter again: the pair closes at the second
      delimiter. */
  lemma PairAround(x: string, delim: string)
    requires |delim| >= 1 && delim[0] != '\n' && delim[0] !in x && NoBreak(x)
    ensures PairAt(delim + x + delim, delim) == Some(|delim| + |x|)
  {
    var s := delim + x + delim;
    var d, e := |delim|, |delim| + |x|;
    assert s[..d] == delim;
    assert s[e..e + d] == delim;
    assert forall j :: d <= j < e ==> s[j] == x[j - d];
    assert forall j :: d <= j < e ==> s[j] != '\n';
    assert DelimAt(s, e, delim);
    FindCloseFirst(s, d, delim);
    var r := FindClose(s, d, delim);
    assert r.Some?;
    var q := r.value;
    assert s[q..q + d][0] == s[q];
    assert q == e;
  }

  /** Scanning text whose only possible delimiter start is its last
      character, with a delimiter longer than one character, finds nothing. */
  lemma {:induction false} LastStarKept(t: string, delim: string, tag: string)
    requires |delim| >= 2 && delim[0] != '\n' && t != [] && delim[0] !in t[..|t| - 1]
    ensures ReplacePairs(t, delim, tag) == t
    decreases |t|
  {
    assert PairAt(t, delim).None? by {
      if |delim| <= |t| {
        assert t[..|delim|][0] == t[..|t| - 1][0];
      }
    }
    UnfoldChar(t, delim, tag);
    if |t| > 1 {
      assert t[1..][..|t| - 2] == t[1..|t| - 1];
      LastStarKept(t[1..], delim, tag);
    }
    assert [t[0]] + t[1..] == t;
  }

  lemma NoStrongPair(x: string)
    requires '*' !in x
    ensures PairAt("*" + x + "*", "**").None?
  {
    var s := "*" + x + "*";
    if x != [] {
      assert s[..2][1] == x[0];
    } else {
      assert |s| == 2;
    }
  }

  /** The strong pass leaves `*x*` alone when x has no `*`. */
  lemma StrongPassSkipsStars(x: string)
    requires '*' !in x
    ensures ReplacePairs("*" + x + "*", "**", "strong") == "*" + x + "*"
  {
    var s := "*" + x + "*";
    NoStrongPair(x);
    UnfoldChar(s, "**", "strong");
    assert s[1..] == x + "*";
    assert (x + "*")[..|x|] == x;
    LastStarKept(x + "*", "**", "strong");
    assert [s[0]] + (x + "*") == s;
  }

  /** Every `**x**` on one line, with no `*` inside, becomes bold. */
  lemma StrongPair(x: string)
    requires NoBreak(x) && '*' !in x
    ensures InlineLine("**" + x + "**") == Wrap("strong", x)
  {
    var s := "**" + x + "**";
    PairAround(x, "**");
    PairStep(s, "**", "strong", 2 + |x|);
    assert s[2..2 + |x|] == x && s[4 + |x|..] == [];
    assert '*' !in Wrap("strong", x);
  }

  /** Every `*x*` on one line, with no `*` inside, becomes italic: the
      strong pass leaves it alone. */
  lemma EmPair(x: string)
    requires NoBreak(x) && '*' !in x
    ensures InlineLine("*" + x + "*") == Wrap("em", x)
  {
    var t := "*" + x + "*";
    StrongPassSkipsStars(x);
    PairAround(x, "*");
    PairStep(t, "*", "em", 1 + |x|);
    assert t[1..1 + |x|] == x && t[2 + |x|..] == [];
  }

  /** The HTML of one line of a resume version: a line that starts with no
      block prefix and has no `*` comes out unchanged, and a line stays a
      line. */
  function LineHtml(line: string): (r: string)
    ensures '*' !in line && !(H1.prefix <= line || H2.prefix <= line || H3.prefix <= line) ==> r == line
    ensures NoBreak(line) ==> NoBreak(r)
  {
    assert '*' !in line ==> !(Item.prefix <= line) by {
      if Item.prefix <= line {
        assert line[0] == '*';
      }
    }
    InlineLine(BlockLine(line))
  }

  function LinesHtml(lines: seq<string>): (r: seq<string>)
    ensures |r| == |lines| && forall i :: 0 <= i < |r| ==> r[i] == LineHtml(lines[i])
  {
    seq(|lines|, i requires 0 <= i < |lines| => LineHtml(lines[i]))
  }

  /** The inline pass applied to each line. */
  function PairsLines(lines: seq<string>, delim: string, tag: string): (r: seq<string>)
    requires |delim| >= 1 && delim[0] != '\n'
    ensures |r| == |lines| && forall i :: 0 <= i < |r| ==> r[i] == ReplacePairs(lines[i], delim, tag)
  {
    seq(|lines|, i requires 0 <= i < |lines| => ReplacePairs(lines[i], delim, tag))
  }

  lemma PairsLinesKeepNoBreak(lines: seq<string>, delim: string, tag: string)
    requires |delim| >= 1 && NoBreak(delim) && NoBreak(tag)
    requires forall i :: 0 <= i < |lines| ==> NoBreak(lines[i])
    ensures forall i :: 0 <= i < |lines| ==> NoBreak(PairsLines(lines, delim, tag)[i])
  {
  }

  /** The inline pass applied to joined lines is the pass applied to each. */
  lemma {:induction false} ReplacePairsJoined(lines: seq<string>, delim: string, tag: string)
    requires |lines| >= 1 && forall i :: 0 <= i < |lines| ==> NoBreak(lines[i])
    requires |delim| >= 1 && NoBreak(delim)
    ensures ReplacePairs(Join(lines, "\n"), delim, tag)
         == Join(PairsLines(lines, delim, tag), "\n")
    decreases |lines|
  {
    if |lines| > 1 {
      ReplacePairsJoined(lines[1..], delim, tag);
      ReplacePairsOnLine(lines[0], Join(lines[1..], "\n"), delim, tag);
      assert PairsLines(lines, delim, tag)[1..] == PairsLines(lines[1..], delim, tag);
    }
  }

  /** Line breaks become `<br>` between the lines. */
  lemma {:induction false} ReplaceBreaksJoined(lines: seq<string>)
    requires |lines| >= 1 && forall i :: 0 <= i < |lines| ==> NoBreak(lines[i])
    ensures ReplaceBreaks(Join(lines, "\n")) == Join(lines, "<br>")
    decreases |lines|
  {
    ReplaceBreaksLine(lines[0]);
    if |lines| > 1 {
      ReplaceBreaksJoined(lines[1..]);
      var rest := Join(lines[1..], "\n");
      assert Join(lines, "\n") == lines[0] + ("\n" + rest);
      ReplaceBreaksAppend(lines[0], "\n" + rest);
      assert ("\n" + rest)[0] == '\n' && ("\n" + rest)[1..] == rest;
      assert ReplaceBreaks("\n" + rest) == "<br>" + ReplaceBreaks(rest);
      assert Join(lines, "<br>") == lines[0] + ("<br>" + Join(lines[1..], "<br>"));
    }
  }

  lemma {:induction false} ReplaceBreaksLine(line: string)
    requires NoBreak(line)
    ensures ReplaceBreaks(line) == line
    decreases |line|
  {
    if line != [] {
      ReplaceBreaksLine(line[1..]);
      assert [line[0]] + line[1..] == line;
    }
  }

  lemma {:induction false} ReplaceBreaksAppend(a: string, b: string)
    ensures ReplaceBreaks(a + b) == ReplaceBreaks(a) + ReplaceBreaks(b)
    decreases |a|
  {
    if a == [] {
      assert a + b == b;
    } else {
      var h, t := BreakOf(a[0]), a[1..];
      ReplaceBreaksAppend(t, b);
      assert (a + b)[0] == a[0] && (a + b)[1..] == t + b;
      assert ReplaceBreaks(a + b) == h + (ReplaceBreaks(t) + ReplaceBreaks(b));
      assert ReplaceBreaks(a) == h + ReplaceBreaks(t);
    }
  }

  /** `convertContentToHtml`'s body: block passes, then strong, then
      emphasis, then line breaks. */
  function ConvertContent(content: string): (html: string)
    ensures NoBreak(html)
    ensures html == Join(LinesHtml(SplitLines(content)), "<br>")
  {
    ConvertPerLine(content);
    ReplaceBreaks(ReplacePairs(ReplacePairs(Blocks(content), "**", "strong"), "*", "em"))
  }

  /** The converter works line by line: each line of the content is turned
      into HTML on its own, and the results are joined with `<br>`. */
  lemma ConvertPerLine(content: string)
    ensures ReplaceBreaks(ReplacePairs(ReplacePairs(Blocks(content), "**", "strong"), "*", "em"))
         == Join(LinesHtml(SplitLines(content)), "<br>")
  {
    var l0 := SplitLines(content);
    var l1 := BlockLines(l0);
    assert Blocks(content) == Join(l1, "\n");
    BlockLinesKeepNoBreak(l0);
    var l2 := PairsLines(l1, "**", "strong");
    ReplacePairsJoined(l1, "**", "strong");
    assert ReplacePairs(Blocks(content), "**", "strong") == Join(l2, "\n");
    PairsLinesKeepNoBreak(l1, "**", "strong");
    var l3 := PairsLines(l2, "*", "em");
    ReplacePairsJoined(l2, "*", "em");
    assert ReplacePairs(Join(l2, "\n"), "*", "em") == Join(l3, "\n");
    PairsLinesKeepNoBreak(l2, "*", "em");
    ReplaceBreaksJoined(l3);
    LinesHtmlStages(l0);
  }

  lemma LinesHtmlStages(lines: seq<string>)
    ensures PairsLines(PairsLines(BlockLines(lines), "**", "strong"), "*", "em") == LinesHtml(lines)
  {
  }

  lemma BlockLinesKeepNoBreak(lines: seq<string>)
    requires forall i :: 0 <= i < |lines| ==> NoBreak(lines[i])
    ensures forall i :: 0 <= i < |lines| ==> NoBreak(BlockLines(lines)[i])
  {
  }

  /** The first matching prefix wins: `### ` is not read as `# `. */
  lemma HeadingExample()
    ensures BlockLine("### Hi") == "<h3>Hi</h3>"
  {
    assert "### Hi"[1] == '#' && "### Hi"[2] == '#';
  }

  lemma ItemExample()
    ensures BlockLine("* a") == "<li>a</li>"
  {
    assert "* a"[0] == '*';
  }

  /** A prefix needs its space. */
  lemma NoSpaceExample()
    ensures BlockLine("#Hi") == "#Hi"
  {
    assert "#Hi"[1] == 'H';
  }

  /** Strong is matched before emphasis. */
  lemma StrongExample()
    ensures InlineLine("**a**") == "<strong>a</strong>"
  {
    assert "**a**"[2..4][0] == 'a';
    assert FindClose("**a**", 3, "**") == Some(3);
    assert FindClose("**a**", 2, "**") == Some(3);
    assert PairAt("**a**", "**") == Some(3);
    assert "**a**"[5..] == [] && "**a**"[2..3] == "a";
    assert ReplacePairs("**a**", "**", "strong") == "<strong>a</strong>";
    assert '*' !in "<strong>a</strong>";
  }

  lemma EmExample()
    ensures InlineLine("*a*") == "<em>a</em>"
  {
    StrongPassSkipsEm();
    assert "*a*"[1..2][0] == 'a';
    assert FindClose("*a*", 2, "*") == Some(2);
    assert FindClose("*a*", 1, "*") == Some(2);
    assert PairAt("*a*", "*") == Some(2);
    assert "*a*"[3..] == [] && "*a*"[1..2] == "a";
  }

  lemma StrongPassSkipsEm()
    ensures ReplacePairs("*a*", "**", "strong") == "*a*"
  {
    assert "*a*"[..2][1] == 'a';
    assert PairAt("*a*", "**") == None;
    assert "*a*"[1..] == "a*" && "a*"[1..] == "*";
    assert ReplacePairs("*", "**", "strong") == "*";
  }

  /** An unclosed `**` is left alone by the strong pass. */
  lemma UnclosedStrong()
    ensures ReplacePairs("**a", "**", "strong") == "**a"
  {
    assert "**a"[..2] == "**" && "**a"[2..3][0] == 'a';
    assert FindClose("**a", 2, "**") == None;
    assert PairAt("**a", "**") == None;
    assert "**a"[1..] == "*a" && "*a"[1..] == "a" && "a"[1..] == [];
    assert PairAt("*a", "**") == None;
  }

  /** A lone `**` leaves its two stars to the emphasis pass, which pairs
      them around nothing. */
  lemma LoneStrongExample()
    ensures InlineLine("**a") == "<em></em>a"
  {
    UnclosedStrong();
    assert FindClose("**a", 1, "*") == Some(1);
    assert PairAt("**a", "*") == Some(1);
    assert "**a"[2..] == "a" && "**a"[1..1] == [];
    assert '*' !in "a";
  }

  /** Two lines are converted separately and joined by `<br>`. */
  lemma ConvertTwoLines(first: string, second: string)
    requires NoBreak(first) && NoBreak(second)
    ensures ConvertContent(first + "\n" + second) == LineHtml(first) + "<br>" + LineHtml(second)
  {
    SplitCons(first, second);
    SplitLine(second);
    var lines := LinesHtml(SplitLines(first + "\n" + second));
    assert lines == [LineHtml(first), LineHtml(second)];
    assert Join(lines, "<br>") == LineHtml(first) + "<br>" + Join(lines[1..], "<br>");
  }
}
