/** The handful of Python `str` operations the scripts rely on: `lower()`,
    `in` (substring test), `startswith`/`endswith`, `strip()`, `split(sep)`
    and `str(n)` for a natural number. Case folding and whitespace are
    modelled on ASCII. */
module Strings {

  /** The characters `str.strip()` removes: the ASCII characters for which
      `str.isspace` holds, that is space, tab, newline, carriage return,
      vertical tab, form feed and the four separators 0x1C to 0x1F. */
  predicate IsSpace(c: char) {
    c == ' ' || c == '\t' || c == '\n' || c == '\r' || c == '\U{000B}' || c == '\U{000C}' ||
    c == '\U{001C}' || c == '\U{001D}' || c == '\U{001E}' || c == '\U{001F}'
  }

  predicate AllSpace(s: string) {
    forall i :: 0 <= i < |s| ==> IsSpace(s[i])
  }

  /** Neither end of `s` is whitespace. */
  predicate IsStripped(s: string) {
    s == "" || (!IsSpace(s[0]) && !IsSpace(s[|s| - 1]))
  }

  function LowerChar(c: char): char {
    if 'A' <= c <= 'Z' then (c as int - 'A' as int + 'a' as int) as char else c
  }

  /** `s.lower()` */
  function Lower(s: string): (r: string)
    ensures |r| == |s|
    ensures forall i :: 0 <= i < |s| ==> r[i] == LowerChar(s[i])
    ensures forall i :: 0 <= i < |s| ==> !('A' <= r[i] <= 'Z')
  {
    seq(|s|, i requires 0 <= i < |s| => LowerChar(s[i]))
  }

  /** Lowering twice is lowering once, so every test on `Lower(s)` is case-insensitive. */
  lemma LowerIdempotent(s: string)
    ensures Lower(Lower(s)) == Lower(s)
  {
  }

  /** `sub` occurs in `s` starting at index `i`. */
  predicate OccursAt(s: string, sub: string, i: int) {
    0 <= i <= |s| - |sub| && s[i..i + |sub|] == sub
  }

  /** `sub in s`, scanning start positions from the left. */
  predicate Contains(s: string, sub: string)
    decreases |s|
  {
    StartsWith(s, sub) || (|s| > 0 && Contains(s[1..], sub))
  }

  /** Only a string at least as long as `sub` can contain it. */
  lemma {:induction false} ContainsFits(s: string, sub: string)
    ensures Contains(s, sub) ==> |sub| <= |s|
    decreases |s|
  {
    if |s| > 0 && Contains(s, sub) {
      ContainsFits(s[1..], sub);
      if !StartsWith(s, sub) {
        assert Contains(s[1..], sub);
      }
    }
  }

  /** `sub in s` holds exactly when `sub` occurs at some position of `s`. */
  lemma {:induction false} ContainsOccurs(s: string, sub: string)
    ensures Contains(s, sub) <==> exists i :: OccursAt(s, sub, i)
    decreases |s|
  {
    if StartsWith(s, sub) {
      assert OccursAt(s, sub, 0);
    }
    if |s| > 0 {
      ContainsOccurs(s[1..], sub);
      if Contains(s[1..], sub) {
        var i :| OccursAt(s[1..], sub, i);
        assert s[i + 1..i + 1 + |sub|] == s[1..][i..i + |sub|];
        assert OccursAt(s, sub, i + 1);
      }
      if i :| OccursAt(s, sub, i) {
        if i > 0 {
          assert s[1..][i - 1..i - 1 + |sub|] == s[i..i + |sub|];
          assert OccursAt(s[1..], sub, i - 1);
        }
      }
    }
  }

  /** `s.startswith(prefix)` */
  predicate StartsWith(s: string, prefix: string) {
    |prefix| <= |s| && s[..|prefix|] == prefix
  }

  /** `s.endswith(suffix)` */
  predicate EndsWith(s: string, suffix: string) {
    |suffix| <= |s| && s[|s| - |suffix|..] == suffix
  }

  lemma EndsWithAppend(s: string, suffix: string)
    ensures EndsWith(s + suffix, suffix)
  {
    assert (s + suffix)[|s|..] == suffix;
  }

  /** A string ending in a non-empty suffix ends in the suffix's last character. */
  lemma LastOfSuffix(s: string, suffix: string)
    ensures EndsWith(s, suffix) && |suffix| > 0 ==> s[|s| - 1] == suffix[|suffix| - 1]
  {
    if EndsWith(s, suffix) && |suffix| > 0 {
      assert s[|s| - |suffix|..][|suffix| - 1] == s[|s| - 1];
    }
  }

  /** Number of whitespace characters at the start of `s`. */
  function LeadingSpaces(s: string): (n: nat)
    ensures n <= |s|
    ensures forall i :: 0 <= i < n ==> IsSpace(s[i])
    ensures n < |s| ==> !IsSpace(s[n])
  {
    if |s| == 0 || !IsSpace(s[0]) then 0 else 1 + LeadingSpaces(s[1..])
  }

  /** Length of `s` once its trailing whitespace is removed. */
  function ContentEnd(s: string): (m: nat)
    ensures m <= |s|
    ensures forall i :: m <= i < |s| ==> IsSpace(s[i])
    ensures 0 < m ==> !IsSpace(s[m - 1])
  {
    if |s| == 0 || !IsSpace(s[|s| - 1]) then |s| else ContentEnd(s[..|s| - 1])
  }

  /** `s.strip()` */
  function Strip(s: string): (r: string)
    ensures IsStripped(r)
    ensures r == "" <==> AllSpace(s)
    ensures forall c :: c in r ==> c in s
  {
    var a := LeadingSpaces(s);
    if a == |s| then ""
    else
      assert !IsSpace(s[a]);
      s[a..ContentEnd(s)]
  }

  /** `strip()` cuts `s` into whitespace, the stripped text, and whitespace. */
  lemma StripDecompose(s: string) returns (p: string, q: string)
    ensures s == p + Strip(s) + q
    ensures AllSpace(p) && AllSpace(q)
  {
    var a := LeadingSpaces(s);
    if a == |s| {
      p, q := s, "";
      assert s == p + "" + q;
    } else {
      var m := ContentEnd(s);
      assert a <= m by {
        assert !IsSpace(s[a]);
      }
      assert Strip(s) == s[a..m];
      p, q := s[..a], s[m..];
      forall i | 0 <= i < |p| ensures IsSpace(p[i]) {
        assert p[i] == s[i];
      }
      forall i | 0 <= i < |q| ensures IsSpace(q[i]) {
        assert q[i] == s[m + i];
      }
      CutThree(s, a, m);
    }
  }

  lemma CutThree(s: string, a: nat, m: nat)
    requires a <= m <= |s|
    ensures s == s[..a] + s[a..m] + s[m..]
  {
  }

  /** The stripped text is the only stripped middle part between two runs of
      whitespace: this characterises `strip()` independently of how it scans. */
  lemma StripUnique(p: string, r: string, q: string)
    requires AllSpace(p) && AllSpace(q) && IsStripped(r)
    ensures Strip(p + r + q) == r
  {
    var s := p + r + q;
    if r == "" {
      assert s == p + q;
      assert AllSpace(s) by {
        forall i | 0 <= i < |s| ensures IsSpace(s[i]) {
          if i < |p| { assert s[i] == p[i]; } else { assert s[i] == q[i - |p|]; }
        }
      }
    } else {
      var a := LeadingSpaces(s);
      assert s[|p|] == r[0];
      assert forall i :: 0 <= i < |p| ==> s[i] == p[i];
      assert a == |p|;
      var m := ContentEnd(s);
      assert s[|p| + |r| - 1] == r[|r| - 1];
      assert forall i :: |p| + |r| <= i < |s| ==> s[i] == q[i - |p| - |r|];
      assert m == |p| + |r|;
      assert s[a..m] == r;
    }
  }

  /** Stripping text that is already stripped changes nothing. */
  lemma StripStripped(s: string)
    requires IsStripped(s)
    ensures Strip(s) == s
  {
    assert "" + s + "" == s;
    StripUnique("", s, "");
  }

  lemma StripIdempotent(s: string)
    ensures Strip(Strip(s)) == Strip(s)
  {
    assert "" + Strip(s) + "" == Strip(s);
    StripUnique("", Strip(s), "");
  }

  lemma AllSpaceAppend(x: string, y: string)
    requires AllSpace(x) && AllSpace(y)
    ensures AllSpace(x + y)
  {
    forall i | 0 <= i < |x + y| ensures IsSpace((x + y)[i]) {
      if i < |x| { assert (x + y)[i] == x[i]; } else { assert (x + y)[i] == y[i - |x|]; }
    }
  }

  lemma ConcatAssocLeft(a: string, b: string, c: string, d: string)
    ensures a + (b + c + d) == (a + b) + c + d
  {}

  lemma ConcatAssocRight(a: string, b: string, c: string, d: string)
    ensures (a + b + c) + d == a + b + (c + d)
  {}

  /** Leading whitespace does not change the stripped text. */
  lemma StripSpacePrefix(w: string, s: string)
    requires AllSpace(w)
    ensures Strip(w + s) == Strip(s)
  {
    var p, q := StripDecompose(s);
    AllSpaceAppend(w, p);
    StripUnique(w + p, Strip(s), q);
    ConcatAssocLeft(w, p, Strip(s), q);
  }

  /** Trailing whitespace does not change the stripped text. */
  lemma StripSpaceSuffix(s: string, w: string)
    requires AllSpace(w)
    ensures Strip(s + w) == Strip(s)
  {
    var p, q := StripDecompose(s);
    AllSpaceAppend(q, w);
    StripUnique(p, Strip(s), q + w);
    ConcatAssocRight(p, Strip(s), q, w);
  }

  /** `[x.strip() for x in xs if x.strip()]`: the stripped, non-empty pieces, in order. */
  function KeepStripped(xs: seq<string>): (r: seq<string>)
    ensures |r| <= |xs|
    ensures forall i :: 0 <= i < |r| ==> r[i] != "" && IsStripped(r[i])
  {
    if |xs| == 0 then []
    else
      var t := Strip(xs[0]);
      (if t != "" then [t] else []) + KeepStripped(xs[1..])
  }

  /** The kept pieces are exactly the non-blank stripped elements. */
  lemma {:induction false} KeepStrippedMembers(xs: seq<string>)
    ensures forall t :: t in KeepStripped(xs) <==> t != "" && exists i :: 0 <= i < |xs| && Strip(xs[i]) == t
  {
    if |xs| > 0 {
      KeepStrippedMembers(xs[1..]);
      assert forall i :: 0 <= i < |xs| - 1 ==> xs[1..][i] == xs[i + 1];
      forall t | t != "" && (exists i :: 0 <= i < |xs| && Strip(xs[i]) == t) ensures t in KeepStripped(xs) {
        var i :| 0 <= i < |xs| && Strip(xs[i]) == t;
        if i > 0 {
          assert Strip(xs[1..][i - 1]) == t;
        }
      }
    }
  }

  lemma {:induction false} KeepStrippedAppend(xs: seq<string>, ys: seq<string>)
    ensures KeepStripped(xs + ys) == KeepStripped(xs) + KeepStripped(ys)
  {
    KeepStrippedIsMapped(xs + ys);
    KeepStrippedIsMapped(xs);
    KeepStrippedIsMapped(ys);
    KeepMappedAppend(Strip, xs, ys);
  }

  /** `[f(x) for x in xs if f(x)]` for any `f`: `KeepStripped` with the
      stripping left abstract, which keeps proofs about the list shape
      clear of how `strip()` works. */
  function KeepMapped(f: string -> string, xs: seq<string>): seq<string> {
    if |xs| == 0 then [] else (if f(xs[0]) != "" then [f(xs[0])] else []) + KeepMapped(f, xs[1..])
  }

  lemma {:induction false} KeepStrippedIsMapped(xs: seq<string>)
    ensures KeepStripped(xs) == KeepMapped(Strip, xs)
  {
    if |xs| > 0 {
      KeepStrippedIsMapped(xs[1..]);
    }
  }

  lemma {:induction false} KeepMappedAppend(f: string -> string, xs: seq<string>, ys: seq<string>)
    ensures KeepMapped(f, xs + ys) == KeepMapped(f, xs) + KeepMapped(f, ys)
  {
    if |xs| == 0 {
      assert xs + ys == ys;
    } else {
      assert (xs + ys)[0] == xs[0];
      assert (xs + ys)[1..] == xs[1..] + ys;
      KeepMappedAppend(f, xs[1..], ys);
    }
  }

  /** Pieces that are already stripped and non-empty pass through unchanged. */
  lemma {:induction false} KeepStrippedClean(xs: seq<string>)
    requires forall i :: 0 <= i < |xs| ==> xs[i] != "" && IsStripped(xs[i])
    ensures KeepStripped(xs) == xs
  {
    if |xs| > 0 {
      assert "" + xs[0] + "" == xs[0];
      StripUnique("", xs[0], "");
      KeepStrippedClean(xs[1..]);
    }
  }

  /** Python's `s.split(sep)` for a non-empty separator: cut at each
      non-overlapping occurrence of `sep`, scanning from the left. */
  function Split(s: string, sep: string): (r: seq<string>)
    requires |sep| > 0
    ensures |r| >= 1
    decreases |s|
  {
    if |s| < |sep| then [s]
    else if s[..|sep|] == sep then [""] + Split(s[|sep|..], sep)
    else
      var rest := Split(s[1..], sep);
      [[s[0]] + rest[0]] + rest[1..]
  }

  /** `sep.join(parts)` */
  function Join(parts: seq<string>, sep: string): string
    requires |parts| >= 1
  {
    if |parts| == 1 then parts[0] else parts[0] + sep + Join(parts[1..], sep)
  }

  lemma {:induction false} JoinStartsWithFirst(parts: seq<string>, sep: string)
    requires |parts| >= 1
    ensures StartsWith(Join(parts, sep), parts[0])
  {
    if |parts| > 1 {
      var j := Join(parts, sep);
      assert j == parts[0] + (sep + Join(parts[1..], sep));
      assert j[..|parts[0]|] == parts[0];
    }
  }

  /** Joining the pieces back with the separator restores the string. */
  lemma {:induction false} SplitJoin(s: string, sep: string)
    requires |sep| > 0
    ensures Join(Split(s, sep), sep) == s
    decreases |s|
  {
    if |s| < |sep| {
    } else if s[..|sep|] == sep {
      var tail := s[|sep|..];
      SplitJoin(tail, sep);
      SplitAtSep(s, sep);
      JoinPrepend("", Split(tail, sep), sep);
      assert s == sep + tail;
    } else {
      var tail := s[1..];
      SplitJoin(tail, sep);
      SplitPastChar(s, sep);
      JoinExtendFirst(s[0], Split(tail, sep), sep);
      assert s == [s[0]] + tail;
    }
  }

  lemma SplitAtSep(s: string, sep: string)
    requires 0 < |sep| <= |s| && s[..|sep|] == sep
    ensures Split(s, sep) == [""] + Split(s[|sep|..], sep)
  {
  }

  lemma SplitPastChar(s: string, sep: string)
    requires 0 < |sep| <= |s| && s[..|sep|] != sep
    ensures Split(s, sep) == [[s[0]] + Split(s[1..], sep)[0]] + Split(s[1..], sep)[1..]
  {
  }

  lemma JoinPrepend(x: string, rest: seq<string>, sep: string)
    requires |rest| >= 1
    ensures Join([x] + rest, sep) == x + sep + Join(rest, sep)
  {
    assert ([x] + rest)[1..] == rest;
  }

  /** Growing the first piece by a character grows the joined string by it. */
  lemma JoinExtendFirst(c: char, rest: seq<string>, sep: string)
    requires |rest| >= 1
    ensures Join([[c] + rest[0]] + rest[1..], sep) == [c] + Join(rest, sep)
  {
    var r := [[c] + rest[0]] + rest[1..];
    if |rest| > 1 {
      assert r[1..] == rest[1..];
      assert Join(r, sep) == ([c] + rest[0]) + sep + Join(rest[1..], sep);
    }
  }

  /** No piece of a split contains the separator. */
  lemma {:induction false} SplitPiecesAvoidSep(s: string, sep: string)
    requires |sep| > 0
    ensures forall k :: 0 <= k < |Split(s, sep)| ==> !Contains(Split(s, sep)[k], sep)
    decreases |s|
  {
    if |s| < |sep| {
      ContainsFits(s, sep);
    } else if s[..|sep|] == sep {
      var tail := s[|sep|..];
      SplitPiecesAvoidSep(tail, sep);
      SplitAtSep(s, sep);
      ContainsFits("", sep);
      AvoidCons("", Split(tail, sep), sep);
    } else {
      var tail := s[1..];
      var rest := Split(tail, sep);
      SplitPiecesAvoidSep(tail, sep);
      SplitPastChar(s, sep);
      SplitJoin(tail, sep);
      HeadPieceAvoidsSep(s, sep, rest);
      AvoidReplaceHead([s[0]] + rest[0], rest, sep);
    }
  }

  /** The first piece of a split of `s` with its first character put back
      still avoids `sep`, since `s` does not start with `sep`. */
  lemma HeadPieceAvoidsSep(s: string, sep: string, rest: seq<string>)
    requires 0 < |sep| <= |s| && s[..|sep|] != sep
    requires |rest| >= 1 && Join(rest, sep) == s[1..] && !Contains(rest[0], sep)
    ensures !Contains([s[0]] + rest[0], sep)
  {
    var x := [s[0]] + rest[0];
    JoinStartsWithFirst(rest, sep);
    assert x == s[..|x|];
    assert x[1..] == rest[0];
    PrefixAvoidsSep(x, s, sep);
  }

  lemma AvoidCons(x: string, rest: seq<string>, sep: string)
    requires !Contains(x, sep)
    requires forall k :: 0 <= k < |rest| ==> !Contains(rest[k], sep)
    ensures forall k :: 0 <= k < |[x] + rest| ==> !Contains(([x] + rest)[k], sep)
  {
    forall k | 0 <= k < |[x] + rest|
      ensures !Contains(([x] + rest)[k], sep)
    {
      if k > 0 {
        assert ([x] + rest)[k] == rest[k - 1];
      }
    }
  }

  lemma AvoidReplaceHead(x: string, rest: seq<string>, sep: string)
    requires |rest| >= 1 && !Contains(x, sep)
    requires forall k :: 0 <= k < |rest| ==> !Contains(rest[k], sep)
    ensures forall k :: 0 <= k < |[x] + rest[1..]| ==> !Contains(([x] + rest[1..])[k], sep)
  {
    forall k | 0 <= k < |[x] + rest[1..]|
      ensures !Contains(([x] + rest[1..])[k], sep)
    {
      if k > 0 {
        assert ([x] + rest[1..])[k] == rest[k];
      }
    }
  }

  /** A prefix of `s` that does not start with `sep` (as `s` does not) and
      whose tail avoids `sep` avoids it altogether. */
  lemma PrefixAvoidsSep(x: string, s: string, sep: string)
    requires |x| > 0 && |x| <= |s| && x == s[..|x|]
    requires !StartsWith(s, sep) && !Contains(x[1..], sep)
    ensures !Contains(x, sep)
  {
    if |x| >= |sep| {
      assert x[..|sep|] == s[..|sep|];
    }
  }

  /** `str(d)` for a single decimal digit. */
  function DigitChar(d: nat): char
    requires d < 10
  {
    "0123456789"[d]
  }

  /** `str(n)` for a natural number: its decimal digits. */
  function NatToString(n: nat): (r: string)
    ensures |r| >= 1
    ensures n >= 10 ==> |r| >= 2
    decreases n
  {
    if n < 10 then [DigitChar(n)] else NatToString(n / 10) + [DigitChar(n % 10)]
  }

  /** Distinct numbers print differently. */
  lemma {:induction false} NatToStringInjective(a: nat, b: nat)
    requires NatToString(a) == NatToString(b)
    ensures a == b
    decreases a
  {
    var sa, sb := NatToString(a), NatToString(b);
    if a < 10 || b < 10 {
      assert sa[0] == sb[0];
    } else {
      assert sa[|sa| - 1] == DigitChar(a % 10);
      assert sb[|sb| - 1] == DigitChar(b % 10);
      assert a % 10 == b % 10;
      assert sa[..|sa| - 1] == NatToString(a / 10);
      assert sb[..|sb| - 1] == NatToString(b / 10);
      NatToStringInjective(a / 10, b / 10);
    }
  }

  /** `answer.lower().strip() in ['y', 'yes']`: the confirmation prompts' test. */
  predicate AnswerIsYes(answer: string) {
    var a := Strip(Lower(answer));
    a == "y" || a == "yes"
  }
}
