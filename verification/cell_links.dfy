/** `split_cell_links`: one spreadsheet cell may hold several links separated
    by newlines, pipes, semicolons or commas. The extractor splits the cell
    once per delimiter, stripping and dropping blank pieces after every pass,
    and keeps the pieces that look like URLs.

    The pass-by-pass procedure is modelled as written (`SplitCellLinks`) and
    proved equal to a one-shot reference: cut the cell at every delimiter
    character, strip the pieces, drop blanks, keep URL-like ones. */
module CellLinks {
  import opened Seqs
  import opened Strings

  /** The delimiters, in the order the passes apply them. */
  const Delimiters: seq<string> := ["\n", "\r\n", "\r", "|", ";", ","]

  /** The characters a link can never contain after splitting; "\r\n" adds
      nothing because its pass runs after every "\n" is gone. */
  const DelimiterChars: set<char> := {'\n', '\r', '|', ';', ','}

  /** `'http://' in link or 'https://' in link` */
  predicate IsUrlLike(link: string) {
    Contains(link, "http://") || Contains(link, "https://")
  }

  /** A piece that survives a pass: stripped and non-empty. */
  predicate Clean(t: string) {
    t != "" && IsStripped(t)
  }

  // ---------------------------------------------------------------------
  // The procedure as written
  // ---------------------------------------------------------------------

  /** One pass: split every link by `d`, keep the stripped non-blank pieces. */
  function SplitEach(links: seq<string>, d: string): (r: seq<string>)
    requires |d| > 0
    ensures forall t :: t in r ==> Clean(t)
  {
    if |links| == 0 then []
    else KeepStripped(Split(links[0], d)) + SplitEach(links[1..], d)
  }

  /** All passes, one per delimiter, in order. */
  function SplitAll(links: seq<string>, ds: seq<string>): (r: seq<string>)
    requires forall i :: 0 <= i < |ds| ==> |ds[i]| > 0
    ensures |ds| > 0 ==> forall t :: t in r ==> Clean(t)
    decreases |ds|
  {
    if |ds| == 0 then links else SplitAll(SplitEach(links, ds[0]), ds[1..])
  }

  /** The final loop: strip once more and keep non-empty URL-like links. */
  function KeepUrls(links: seq<string>): (r: seq<string>)
    ensures forall t :: t in r ==> Clean(t) && IsUrlLike(t)
    ensures forall t :: t in r ==> exists i :: 0 <= i < |links| && Strip(links[i]) == t
  {
    if |links| == 0 then []
    else
      var t := Strip(links[0]);
      var rest := KeepUrls(links[1..]);
      assert forall u :: u in rest ==> exists i :: 1 <= i < |links| && Strip(links[i]) == u by {
        forall u | u in rest ensures exists i :: 1 <= i < |links| && Strip(links[i]) == u {
          var j :| 0 <= j < |links[1..]| && Strip(links[1..][j]) == u;
          assert Strip(links[j + 1]) == u;
        }
      }
      (if t != "" && IsUrlLike(t) then [t] else []) + rest
  }

  /** `split_cell_links(cell_value)`; an empty cell yields no links. */
  function SplitCellLinks(cell: string): (r: seq<string>)
    ensures forall t :: t in r ==> Clean(t) && IsUrlLike(t)
  {
    if cell == "" then [] else KeepUrls(SplitAll([cell], Delimiters))
  }

  // ---------------------------------------------------------------------
  // The reference: cut at every delimiter character at once
  // ---------------------------------------------------------------------

  /** Cut `s` at every character of `cut`; there is always one more piece
      than there are cut characters. */
  function SplitChars(s: string, cut: set<char>): (r: seq<string>)
    ensures |r| >= 1
  {
    if |s| == 0 then [""]
    else
      var rest := SplitChars(s[1..], cut);
      if s[0] in cut then [""] + rest else [[s[0]] + rest[0]] + rest[1..]
  }

  /** The links a cell holds, before the URL test. */
  function CellTokens(cell: string): seq<string> {
    KeepStripped(SplitChars(cell, DelimiterChars))
  }

  /** Split every element and concatenate the pieces. */
  function FlatSplit(xs: seq<string>, cut: set<char>): seq<string> {
    if |xs| == 0 then [] else SplitChars(xs[0], cut) + FlatSplit(xs[1..], cut)
  }

  /** Every piece is made of characters of `s` that are not cut characters. */
  lemma {:induction false} SplitCharsPieces(s: string, cut: set<char>)
    ensures forall t, c :: t in SplitChars(s, cut) && c in t ==> c in s && c !in cut
  {
    if |s| > 0 {
      var rest := SplitChars(s[1..], cut);
      SplitCharsPieces(s[1..], cut);
      assert s == [s[0]] + s[1..];
      forall t, c | t in SplitChars(s, cut) && c in t ensures c in s && c !in cut {
        if s[0] in cut {
          assert t == "" || t in rest;
        } else if t == [s[0]] + rest[0] {
          if c != s[0] {
            assert c in rest[0];
          }
        } else {
          assert t in rest[1..];
        }
      }
    }
  }

  /** Cutting at a single character is Python's `split` with that character. */
  lemma {:induction false} SplitSingleChar(s: string, d: char)
    ensures Split(s, [d]) == SplitChars(s, {d})
    decreases |s|
  {
    if |s| > 0 {
      SplitSingleChar(s[1..], d);
      assert s[..1] == [s[0]];
    }
  }

  /** Unfolds one step of `SplitChars` on a string given as head and tail. */
  lemma SplitCharsCons(c: char, s: string, cut: set<char>)
    ensures var r := SplitChars(s, cut);
      SplitChars([c] + s, cut) == if c in cut then [""] + r else [[c] + r[0]] + r[1..]
  {
    assert ([c] + s)[0] == c && ([c] + s)[1..] == s;
  }

  /** Appending one character extends the last piece or opens a new one. */
  predicate SnocShape(s: string, c: char, cut: set<char>) {
    var a := SplitChars(s, cut);
    SplitChars(s + [c], cut) == if c in cut then a + [""] else a[..|a| - 1] + [a[|a| - 1] + [c]]
  }

  lemma {:induction false} SplitCharsSnoc(s: string, c: char, cut: set<char>)
    ensures SnocShape(s, c, cut)
  {
    if |s| == 0 {
      assert s + [c] == [c] + "";
      SplitCharsCons(c, "", cut);
    } else {
      var h, t := s[0], s[1..];
      assert s == [h] + t;
      SplitCharsSnoc(t, c, cut);
      if h in cut {
        SnocAfterCut(h, t, c, cut);
      } else if c in cut {
        SnocCutAfterGlued(h, t, c, cut);
      } else {
        SnocGlued(h, t, c, cut);
      }
    }
  }

  lemma SnocAfterCut(h: char, t: string, c: char, cut: set<char>)
    requires h in cut && SnocShape(t, c, cut)
    ensures SnocShape([h] + t, c, cut)
  {
    assert [h] + t + [c] == [h] + (t + [c]);
    SplitCharsCons(h, t, cut);
    SplitCharsCons(h, t + [c], cut);
    var a := SplitChars([h] + t, cut);
    var rest := SplitChars(t, cut);
    if c !in cut {
      assert a[..|a| - 1] == [""] + rest[..|rest| - 1];
    }
  }

  lemma SnocCutAfterGlued(h: char, t: string, c: char, cut: set<char>)
    requires h !in cut && c in cut && SnocShape(t, c, cut)
    ensures SnocShape([h] + t, c, cut)
  {
    assert [h] + t + [c] == [h] + (t + [c]);
    SplitCharsCons(h, t, cut);
    SplitCharsCons(h, t + [c], cut);
    var rest := SplitChars(t, cut);
    var rest' := SplitChars(t + [c], cut);
    assert rest'[0] == rest[0];
    assert rest'[1..] == rest[1..] + [""];
  }

  lemma SnocGlued(h: char, t: string, c: char, cut: set<char>)
    requires h !in cut && c !in cut && SnocShape(t, c, cut)
    ensures SnocShape([h] + t, c, cut)
  {
    assert [h] + t + [c] == [h] + (t + [c]);
    SplitCharsCons(h, t, cut);
    SplitCharsCons(h, t + [c], cut);
    var rest := SplitChars(t, cut);
    GlueLast(h, c, rest, SplitChars(t + [c], cut));
  }

  /** The list-level step of `SnocGlued`: `h` joins the first piece and `c`
      the last one. */
  lemma GlueLast(h: char, c: char, rest: seq<string>, rest': seq<string>)
    requires |rest| >= 1
    requires rest' == rest[..|rest| - 1] + [rest[|rest| - 1] + [c]]
    ensures var a := [[h] + rest[0]] + rest[1..];
      [[h] + rest'[0]] + rest'[1..] == a[..|a| - 1] + [a[|a| - 1] + [c]]
  {
    var a := [[h] + rest[0]] + rest[1..];
    if |rest| == 1 {
      assert [h] + (rest[0] + [c]) == ([h] + rest[0]) + [c];
    } else {
      assert rest'[0] == rest[0];
      assert rest'[1..] == rest[1..|rest| - 1] + [rest[|rest| - 1] + [c]];
      assert a[..|a| - 1] == [[h] + rest[0]] + rest[1..|rest| - 1];
    }
  }



  lemma KeepStrippedSingle(t: string)
    ensures KeepStripped([t]) == if Strip(t) == "" then [] else [Strip(t)]
  {
    assert [t][1..] == [];
  }

  /** Whitespace glued to the front of the first piece is stripped away again. */
  lemma KeepStrippedSpaceOnFirst(w: string, first: string, rest: seq<string>)
    requires AllSpace(w)
    ensures KeepStripped([w + first] + rest) == KeepStripped([first] + rest)
  {
    SingleSpaceOnFirst(w, first);
    KeepStrippedAppend([w + first], rest);
    KeepStrippedAppend([first], rest);
  }

  lemma SingleSpaceOnFirst(w: string, first: string)
    requires AllSpace(w)
    ensures KeepStripped([w + first]) == KeepStripped([first])
  {
    StripSpacePrefix(w, first);
    KeepStrippedSingle(w + first);
    KeepStrippedSingle(first);
  }

  lemma SingleSpaceOnLast(last: string, w: string)
    requires AllSpace(w)
    ensures KeepStripped([last + w]) == KeepStripped([last])
  {
    StripSpaceSuffix(last, w);
    KeepStrippedSingle(last + w);
    KeepStrippedSingle(last);
  }

  /** Whitespace glued to the end of the last piece is stripped away again. */
  lemma KeepStrippedSpaceOnLast(init: seq<string>, last: string, w: string)
    requires AllSpace(w)
    ensures KeepStripped(init + [last + w]) == KeepStripped(init + [last])
  {
    SingleSpaceOnLast(last, w);
    KeepStrippedAppend(init, [last + w]);
    KeepStrippedAppend(init, [last]);
  }

  /** An empty piece is dropped. */
  lemma KeepStrippedEmptyFirst(r: seq<string>)
    ensures KeepStripped([""] + r) == KeepStripped(r)
  {
    KeepStrippedAppend([""], r);
    KeepStrippedSingle("");
  }

  lemma KeepStrippedEmptyLast(a: seq<string>)
    ensures KeepStripped(a + [""]) == KeepStripped(a)
  {
    KeepStrippedAppend(a, [""]);
    KeepStrippedSingle("");
  }

  lemma ConsAssoc(p: string, s: string)
    requires |p| > 0
    ensures p + s == [p[0]] + (p[1..] + s)
  {
    assert p == [p[0]] + p[1..];
  }

  lemma SnocAssoc(s: string, q: string)
    requires |q| > 0
    ensures s + q == (s + q[..|q| - 1]) + [q[|q| - 1]]
  {
    assert q == q[..|q| - 1] + [q[|q| - 1]];
  }

  lemma ConcatAssoc(a: string, b: string, c: string)
    ensures a + b + c == a + (b + c)
  {
  }

  /** Leading whitespace never changes the stripped non-blank pieces. */
  lemma {:induction false} KeepPiecesSkipLeadingSpace(p: string, s: string, cut: set<char>)
    requires AllSpace(p)
    ensures KeepStripped(SplitChars(p + s, cut)) == KeepStripped(SplitChars(s, cut))
    decreases |p|
  {
    if |p| == 0 {
      assert p + s == s;
    } else {
      var h, p' := p[0], p[1..];
      ConsAssoc(p, s);
      assert AllSpace(p') by {
        forall i | 0 <= i < |p'| ensures IsSpace(p'[i]) {
          assert p'[i] == p[i + 1];
        }
      }
      KeepPiecesSkipLeadingSpace(p', s, cut);
      SplitCharsCons(h, p' + s, cut);
      var r := SplitChars(p' + s, cut);
      if h in cut {
        KeepStrippedEmptyFirst(r);
      } else {
        assert r == [r[0]] + r[1..];
        KeepStrippedSpaceOnFirst([h], r[0], r[1..]);
      }
    }
  }

  /** Trailing whitespace never changes the stripped non-blank pieces. */
  lemma {:induction false} KeepPiecesSkipTrailingSpace(s: string, q: string, cut: set<char>)
    requires AllSpace(q)
    ensures KeepStripped(SplitChars(s + q, cut)) == KeepStripped(SplitChars(s, cut))
    decreases |q|
  {
    if |q| == 0 {
      assert s + q == s;
    } else {
      var q', c := q[..|q| - 1], q[|q| - 1];
      SnocAssoc(s, q);
      assert AllSpace(q') by {
        forall i | 0 <= i < |q'| ensures IsSpace(q'[i]) {
          assert q'[i] == q[i];
        }
      }
      KeepPiecesSkipTrailingSpace(s, q', cut);
      SpaceSnoc(s + q', c, cut);
    }
  }

  /** One trailing whitespace character never changes the stripped non-blank pieces. */
  lemma SpaceSnoc(x: string, c: char, cut: set<char>)
    requires IsSpace(c)
    ensures KeepStripped(SplitChars(x + [c], cut)) == KeepStripped(SplitChars(x, cut))
  {
    var a := SplitChars(x, cut);
    SplitCharsSnoc(x, c, cut);
    if c in cut {
      KeepStrippedEmptyLast(a);
    } else {
      assert a == a[..|a| - 1] + [a[|a| - 1]];
      assert AllSpace([c]);
      KeepStrippedSpaceOnLast(a[..|a| - 1], a[|a| - 1], [c]);
    }
  }

  /** Stripping before a pass does not change what the pass keeps. */
  lemma KeepPiecesIgnoreOuterSpace(x: string, cut: set<char>)
    ensures KeepStripped(SplitChars(Strip(x), cut)) == KeepStripped(SplitChars(x, cut))
  {
    var p, q := StripDecompose(x);
    var m := Strip(x);
    KeepPiecesSkipTrailingSpace(m, q, cut);
    KeepPiecesSkipLeadingSpace(p, m + q, cut);
    assert x == p + m + q;
    ConcatAssoc(p, m, q);
  }

  lemma FlatSplitCons(x: string, ys: seq<string>, cut: set<char>)
    ensures FlatSplit([x] + ys, cut) == SplitChars(x, cut) + FlatSplit(ys, cut)
  {
    assert ([x] + ys)[1..] == ys;
  }

  lemma GlueHead(h: char, a: seq<string>, tail: seq<string>)
    requires |a| >= 1
    ensures [[h] + a[0]] + a[1..] + tail == [[h] + (a + tail)[0]] + (a + tail)[1..]
  {
    assert (a + tail)[1..] == a[1..] + tail;
  }

  /** Cutting at `c1` and then cutting each piece at `c2` is cutting at both. */
  lemma {:induction false} SplitCharsRefine(s: string, c1: set<char>, c2: set<char>)
    ensures FlatSplit(SplitChars(s, c1), c2) == SplitChars(s, c1 + c2)
  {
    if |s| == 0 {
      FlatSplitCons("", [], c2);
    } else {
      var h, t := s[0], s[1..];
      assert s == [h] + t;
      SplitCharsRefine(t, c1, c2);
      if h in c1 {
        RefineCutFirst(h, t, c1, c2);
      } else if h in c2 {
        RefineCutSecond(h, t, c1, c2);
      } else {
        RefineKeep(h, t, c1, c2);
      }
    }
  }

  lemma RefineCutFirst(h: char, t: string, c1: set<char>, c2: set<char>)
    requires h in c1
    requires FlatSplit(SplitChars(t, c1), c2) == SplitChars(t, c1 + c2)
    ensures FlatSplit(SplitChars([h] + t, c1), c2) == SplitChars([h] + t, c1 + c2)
  {
    var r := SplitChars(t, c1);
    SplitCharsCons(h, t, c1);
    SplitCharsCons(h, t, c1 + c2);
    FlatSplitCons("", r, c2);
  }

  lemma RefineCutSecond(h: char, t: string, c1: set<char>, c2: set<char>)
    requires h !in c1 && h in c2
    requires FlatSplit(SplitChars(t, c1), c2) == SplitChars(t, c1 + c2)
    ensures FlatSplit(SplitChars([h] + t, c1), c2) == SplitChars([h] + t, c1 + c2)
  {
    var r := SplitChars(t, c1);
    var a := SplitChars(r[0], c2);
    var tail := FlatSplit(r[1..], c2);
    assert r == [r[0]] + r[1..];
    FlatSplitCons(r[0], r[1..], c2);
    assert SplitChars(t, c1 + c2) == a + tail;
    SplitCharsCons(h, t, c1 + c2);
    assert SplitChars([h] + t, c1 + c2) == [""] + (a + tail);
    SplitCharsCons(h, t, c1);
    assert SplitChars([h] + t, c1) == [[h] + r[0]] + r[1..];
    FlatSplitCons([h] + r[0], r[1..], c2);
    SplitCharsCons(h, r[0], c2);
    assert SplitChars([h] + r[0], c2) == [""] + a;
    OpenHead(a, tail);
  }

  lemma OpenHead(a: seq<string>, tail: seq<string>)
    ensures ([""] + a) + tail == [""] + (a + tail)
  {
  }

  lemma RefineKeep(h: char, t: string, c1: set<char>, c2: set<char>)
    requires h !in c1 && h !in c2
    requires FlatSplit(SplitChars(t, c1), c2) == SplitChars(t, c1 + c2)
    ensures FlatSplit(SplitChars([h] + t, c1), c2) == SplitChars([h] + t, c1 + c2)
  {
    var r := SplitChars(t, c1);
    SplitCharsCons(h, t, c1);
    SplitCharsCons(h, t, c1 + c2);
    var tail := FlatSplit(r[1..], c2);
    var a := SplitChars(r[0], c2);
    FlatSplitCons([h] + r[0], r[1..], c2);
    SplitCharsCons(h, r[0], c2);
    FlatSplitCons(r[0], r[1..], c2);
    assert r == [r[0]] + r[1..];
    assert SplitChars(t, c1 + c2) == a + tail;
    GlueHead(h, a, tail);
  }

  /** A pass with a one-character delimiter over stripped pieces is the
      reference cut followed by strip-and-drop-blanks. */
  lemma {:induction false} SplitEachKeepStripped(ys: seq<string>, d: char)
    ensures SplitEach(KeepStripped(ys), [d]) == KeepStripped(FlatSplit(ys, {d}))
  {
    if |ys| > 0 {
      SplitEachKeepStripped(ys[1..], d);
      KeepStrippedAppend(SplitChars(ys[0], {d}), FlatSplit(ys[1..], {d}));
      KeepPiecesIgnoreOuterSpace(ys[0], {d});
      var t := Strip(ys[0]);
      var ks := KeepStripped(ys[1..]);
      if t != "" {
        SplitSingleChar(t, d);
        var l := [t] + ks;
        assert l[0] == t && l[1..] == ks;
      } else {
        KeepStrippedSingle("");
        assert KeepStripped(ys) == ks;
        assert KeepStripped(SplitChars(ys[0], {d})) == [];
      }
    }
  }

  /** A string without a newline is not cut by "\r\n". */
  lemma {:induction false} SplitCrLfWithoutNewline(l: string)
    requires '\n' !in l
    ensures Split(l, "\r\n") == [l]
    decreases |l|
  {
    if |l| >= 2 {
      assert l[1] in l;
      assert l[1..][0] == l[1];
      assert '\n' !in l[1..] by {
        forall c | c in l[1..] ensures c in l {
        }
      }
      SplitCrLfWithoutNewline(l[1..]);
      assert l == [l[0]] + l[1..];
    }
  }

  /** The "\r\n" pass leaves newline-free clean links as they are. */
  lemma {:induction false} SplitEachCrLfNoop(xs: seq<string>)
    requires forall t :: t in xs ==> Clean(t) && '\n' !in t
    ensures SplitEach(xs, "\r\n") == xs
  {
    if |xs| > 0 {
      assert xs[0] in xs;
      SplitCrLfWithoutNewline(xs[0]);
      KeepStrippedSingle(xs[0]);
      StripStripped(xs[0]);
      assert forall t :: t in xs[1..] ==> t in xs;
      SplitEachCrLfNoop(xs[1..]);
      assert xs == [xs[0]] + xs[1..];
    }
  }

  /** On links that are already clean, the final loop is a plain filter. */
  lemma {:induction false} KeepUrlsOfClean(xs: seq<string>)
    requires forall t :: t in xs ==> Clean(t)
    ensures KeepUrls(xs) == Filter(IsUrlLike, xs)
  {
    if |xs| > 0 {
      assert xs[0] in xs;
      StripStripped(xs[0]);
      assert forall t :: t in xs[1..] ==> t in xs;
      KeepUrlsOfClean(xs[1..]);
    }
  }

  lemma KeepStrippedChars(xs: seq<string>, cut: set<char>, s: string)
    requires forall t, c :: t in xs && c in t ==> c in s && c !in cut
    ensures forall t, c :: t in KeepStripped(xs) && c in t ==> c in s && c !in cut
  {
    KeepStrippedMembers(xs);
    forall t, c | t in KeepStripped(xs) && c in t ensures c in s && c !in cut {
      var i :| 0 <= i < |xs| && Strip(xs[i]) == t;
      assert xs[i] in xs;
    }
  }

  /** One single-character pass refines the reference cut by that character. */
  lemma PassRefines(cell: string, cut: set<char>, d: char, cut': set<char>)
    requires cut' == cut + {d}
    ensures SplitEach(KeepStripped(SplitChars(cell, cut)), [d]) == KeepStripped(SplitChars(cell, cut'))
  {
    SplitEachKeepStripped(SplitChars(cell, cut), d);
    SplitCharsRefine(cell, cut, {d});
  }

  /** The first pass is the reference cut at newlines. */
  lemma FirstPass(cell: string)
    ensures SplitEach([cell], "\n") == KeepStripped(SplitChars(cell, {'\n'}))
  {
    SplitSingleChar(cell, '\n');
    assert [cell][1..] == [];
  }

  /** After the first pass no link holds a newline. */
  lemma FirstPassNoNewline(cell: string)
    ensures forall t :: t in SplitEach([cell], "\n") ==> Clean(t) && '\n' !in t
  {
    FirstPass(cell);
    SplitCharsPieces(cell, {'\n'});
    KeepStrippedChars(SplitChars(cell, {'\n'}), {'\n'}, cell);
  }

  /** `SplitAll` over the six delimiters, pass by pass. */
  lemma SplitAllDelimiters(links: seq<string>)
    ensures SplitAll(links, Delimiters) ==
      SplitEach(SplitEach(SplitEach(SplitEach(SplitEach(SplitEach(links, "\n"), "\r\n"), "\r"), "|"), ";"), ",")
  {
    var ds := Delimiters;
    assert ds[1..][1..][1..][1..][1..][1..] == [];
  }

  /** The "\n" and "\r\n" passes together cut at newlines. */
  lemma NewlinePasses(cell: string)
    ensures SplitEach(SplitEach([cell], "\n"), "\r\n") == KeepStripped(SplitChars(cell, {'\n'}))
  {
    FirstPass(cell);
    FirstPassNoNewline(cell);
    SplitEachCrLfNoop(SplitEach([cell], "\n"));
  }

  lemma DelimiterSetSteps()
    ensures {'\n'} + {'\r'} == {'\n', '\r'}
    ensures {'\n', '\r'} + {'|'} == {'\n', '\r', '|'}
    ensures {'\n', '\r', '|'} + {';'} == {'\n', '\r', '|', ';'}
    ensures {'\n', '\r', '|', ';'} + {','} == DelimiterChars
  {
  }

  /** The six passes cut at every delimiter character. */
  lemma AllPasses(cell: string)
    ensures SplitAll([cell], Delimiters) == KeepStripped(SplitChars(cell, DelimiterChars))
  {
    SplitAllDelimiters([cell]);
    DelimiterSetSteps();
    var l2 := SplitEach(SplitEach([cell], "\n"), "\r\n");
    NewlinePasses(cell);
    var l3 := SplitEach(l2, "\r");
    PassRefines(cell, {'\n'}, '\r', {'\n', '\r'});
    var l4 := SplitEach(l3, "|");
    PassRefines(cell, {'\n', '\r'}, '|', {'\n', '\r', '|'});
    var l5 := SplitEach(l4, ";");
    PassRefines(cell, {'\n', '\r', '|'}, ';', {'\n', '\r', '|', ';'});
    PassRefines(cell, {'\n', '\r', '|', ';'}, ',', DelimiterChars);
  }

  /** The pass-by-pass procedure finds exactly the URL-like pieces of the
      one-shot cut, in the same order. */
  lemma SplitCellLinksIsReference(cell: string)
    ensures SplitCellLinks(cell) == Filter(IsUrlLike, CellTokens(cell))
  {
    if cell == "" {
      KeepStrippedSingle("");
    } else {
      AllPasses(cell);
      KeepUrlsOfClean(KeepStripped(SplitChars(cell, DelimiterChars)));
    }
  }

  /** No extracted link contains a delimiter, and every character of a link
      comes from the cell. */
  lemma SplitCellLinksPieces(cell: string)
    ensures forall t, c :: t in SplitCellLinks(cell) && c in t ==> c in cell && c !in DelimiterChars
  {
    SplitCellLinksIsReference(cell);
    FilterMembers(IsUrlLike, CellTokens(cell));
    SplitCharsPieces(cell, DelimiterChars);
    KeepStrippedChars(SplitChars(cell, DelimiterChars), DelimiterChars, cell);
  }
}
