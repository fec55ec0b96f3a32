/** The handful of Python `str` and `re` operations the text components rely on, written
    out over `seq<char>`: whitespace, strip, splitting, joining, run collapsing and the
    `repr` of integers and integer lists. */
module Strings {

  /** Python's `str.isspace()`: the characters `str.strip()` removes and `\s` matches in a
      `str` pattern of the `re` module. */
  predicate IsSpace(c: char) {
    ('\t' <= c <= '\r') || ('\U{1C}' <= c <= '\U{1F}') || c == ' ' || c == '\U{85}'
    || c == '\U{A0}' || c == '\U{1680}' || ('\U{2000}' <= c <= '\U{200A}')
    || c == '\U{2028}' || c == '\U{2029}' || c == '\U{202F}' || c == '\U{205F}'
    || c == '\U{3000}'
  }

  predicate IsNewline(c: char) { c == '\n' }

  function Last<T>(s: seq<T>): T
    requires s != []
  {
    s[|s| - 1]
  }

  /** The prefix of length `i + 1` extends the prefix of length `i` by `s[i]`. */
  lemma PrefixStep<T>(s: seq<T>, i: int)
    requires 0 <= i < |s|
    ensures s[..i + 1][..i] == s[..i] && Last(s[..i + 1]) == s[i]
  {
  }

  /** Concatenation regrouped. */
  lemma Associative<T>(p: seq<T>, a: seq<T>, b: seq<T>, c: seq<T>)
    ensures p + (a + b + c) == p + a + b + c
  {
  }

  /** A prefix of a prefix of `s` agrees with `s` index by index. */
  lemma PrefixOfPrefix<T>(s: seq<T>, t1: seq<T>, t2: seq<T>)
    requires |t1| <= |s| && t1 == s[..|t1|] && |t2| <= |t1| && t2 == t1[..|t2|]
    ensures forall m :: 0 <= m < |t2| ==> t2[m] == s[m]
  {
  }

  /** `[f(x) for x in xs]`, built from the end as a loop that appends builds it. */
  function Map<A, B>(f: A -> B, xs: seq<A>): seq<B> {
    if xs == [] then [] else Map(f, xs[..|xs| - 1]) + [f(Last(xs))]
  }

  lemma {:induction false} MapPointwise<A, B>(f: A -> B, xs: seq<A>)
    ensures |Map(f, xs)| == |xs|
    ensures forall k :: 0 <= k < |xs| ==> Map(f, xs)[k] == f(xs[k])
  {
    if xs != [] {
      var init := xs[..|xs| - 1];
      MapPointwise(f, init);
      assert forall k :: 0 <= k < |init| ==> init[k] == xs[k];
    }
  }

  lemma MapSnoc<A, B>(f: A -> B, xs: seq<A>, x: A)
    ensures Map(f, xs + [x]) == Map(f, xs) + [f(x)]
  {
    assert (xs + [x])[..|xs|] == xs;
  }

  /** The elements of the nested lists, in order. */
  function Flatten<T>(lists: seq<seq<T>>): seq<T> {
    if lists == [] then [] else Flatten(lists[..|lists| - 1]) + Last(lists)
  }

  lemma FlattenSnoc<T>(lists: seq<seq<T>>, l: seq<T>)
    ensures Flatten(lists + [l]) == Flatten(lists) + l
  {
    assert (lists + [l])[..|lists|] == lists;
  }

  /** A suffix of a suffix is a suffix. */
  lemma SuffixOfSuffix<T>(s: seq<T>, b: seq<T>, n: int)
    requires |b| <= |s| && s[|s| - |b|..] == b && 0 <= n <= |b|
    ensures s[|s| - n..] == b[|b| - n..]
  {
    assert s[|s| - n..] == s[|s| - |b|..][|b| - n..];
  }

  predicate EndsWith(s: string, c: char) {
    s != [] && Last(s) == c
  }

  /** Neither end of `s` is whitespace: what `str.strip()` guarantees. */
  predicate IsStripped(s: string) {
    s == [] || (!IsSpace(s[0]) && !IsSpace(Last(s)))
  }

  /** `str.lstrip()`. */
  function LStrip(s: string): string {
    if s != [] && IsSpace(s[0]) then LStrip(s[1..]) else s
  }

  /** `str.lstrip()` removes exactly the longest whitespace prefix. */
  lemma {:induction false} LStripShape(s: string)
    ensures |LStrip(s)| <= |s| && LStrip(s) == s[|s| - |LStrip(s)|..]
    ensures LStrip(s) == [] || !IsSpace(LStrip(s)[0])
    ensures forall i :: 0 <= i < |s| - |LStrip(s)| ==> IsSpace(s[i])
  {
    if s != [] && IsSpace(s[0]) {
      LStripShape(s[1..]);
      assert forall i :: 1 <= i < |s| ==> s[i] == s[1..][i - 1];
    }
  }

  /** `str.rstrip()`. */
  function RStrip(s: string): string {
    if s != [] && IsSpace(Last(s)) then RStrip(s[..|s| - 1]) else s
  }

  /** `str.rstrip()` removes exactly the longest whitespace suffix. */
  lemma {:induction false} RStripShape(s: string)
    ensures |RStrip(s)| <= |s| && RStrip(s) == s[..|RStrip(s)|]
    ensures RStrip(s) == [] || !IsSpace(Last(RStrip(s)))
    ensures forall i :: |RStrip(s)| <= i < |s| ==> IsSpace(s[i])
  {
    if s != [] && IsSpace(Last(s)) {
      RStripShape(s[..|s| - 1]);
    }
  }

  /** `str.strip()`. */
  function Strip(s: string): (r: string)
    ensures IsStripped(r)
  {
    var l := LStrip(s);
    LStripShape(s);
    RStripShape(l);
    assert l == [] || RStrip(l) == [] || RStrip(l)[0] == l[0];
    RStrip(l)
  }

  /** `str.rstrip(c)` for a single character `c`. */
  function RStripChar(s: string, c: char): string {
    if EndsWith(s, c) then RStripChar(s[..|s| - 1], c) else s
  }

  /** `str.rstrip(c)` removes exactly the longest suffix of `c`s. */
  lemma {:induction false} RStripCharShape(s: string, c: char)
    ensures |RStripChar(s, c)| <= |s| && RStripChar(s, c) == s[..|RStripChar(s, c)|]
    ensures forall i :: |RStripChar(s, c)| <= i < |s| ==> s[i] == c
    ensures !EndsWith(RStripChar(s, c), c)
  {
    if EndsWith(s, c) {
      RStripCharShape(s[..|s| - 1], c);
    }
  }

  // ---------------------------------------------------------------------------
  // Runs of a character class, as matched by a regex `X{k,}`.

  /** Length of the run of `p`-characters at the start of `s`. */
  function RunLength(s: string, p: char -> bool): (n: nat)
    ensures n <= |s|
    ensures forall i :: 0 <= i < n ==> p(s[i])
    ensures n < |s| ==> !p(s[n])
  {
    if s != [] && p(s[0]) then 1 + RunLength(s[1..], p) else 0
  }

  /** `k` consecutive `p`-characters start at position `i` of `s`. */
  ghost predicate RunAt(s: string, p: char -> bool, k: nat, i: int) {
    0 <= i && i + k <= |s| && forall j :: i <= j < i + k ==> p(s[j])
  }

  ghost predicate HasRun(s: string, p: char -> bool, k: nat) {
    exists i :: RunAt(s, p, k, i)
  }

  /** `re.sub(X{k,}, rep, s)` where `X` is the class `p`: every maximal run of at least
      `k` characters of the class becomes `rep`, shorter runs are kept. */
  function Squeeze(s: string, p: char -> bool, k: nat, rep: string): string
    decreases |s|
  {
    if s == [] then []
    else if p(s[0]) then
      var n := RunLength(s, p);
      (if n >= k then rep else s[..n]) + Squeeze(s[n..], p, k, rep)
    else
      [s[0]] + Squeeze(s[1..], p, k, rep)
  }

  /** A character in neither `s` nor `rep` is not in the squeezed string. */
  lemma {:induction false} SqueezeAvoids(s: string, p: char -> bool, k: nat, rep: string, x: char)
    requires x !in s && x !in rep
    ensures x !in Squeeze(s, p, k, rep)
    decreases |s|
  {
    if s != [] {
      if p(s[0]) {
        var n := RunLength(s, p);
        SqueezeAvoids(s[n..], p, k, rep, x);
        assert x !in s[..n];
      } else {
        SqueezeAvoids(s[1..], p, k, rep, x);
      }
    }
  }

  /** A run of fewer than `k` class characters followed by a non-class character (or by
      nothing) cannot be part of a run of `k`. */
  lemma NoRunAcross(l: string, r: string, p: char -> bool, k: nat)
    requires |l| < k && forall j :: 0 <= j < |l| ==> p(l[j])
    requires r != [] ==> !p(r[0])
    requires !HasRun(r, p, k)
    ensures !HasRun(l + r, p, k)
  {
    forall i ensures !RunAt(l + r, p, k, i) {
      if 0 <= i && i + k <= |l + r| {
        if i < |l| {
          assert (l + r)[|l|] == r[0];
        } else {
          assert !RunAt(r, p, k, i - |l|);
          var j :| i - |l| <= j < i - |l| + k && !p(r[j]);
          assert (l + r)[j + |l|] == r[j];
        }
      }
    }
  }

  /** A non-class character in front of a text creates no run. */
  lemma NoRunCons(c: char, r: string, p: char -> bool, k: nat)
    requires k >= 1 && !p(c) && !HasRun(r, p, k)
    ensures !HasRun([c] + r, p, k)
  {
    forall i ensures !RunAt([c] + r, p, k, i) {
      if i == 0 && k <= |[c] + r| {
        assert ([c] + r)[0] == c;
      } else if 0 < i && i + k <= |[c] + r| {
        assert !RunAt(r, p, k, i - 1);
        var j :| i - 1 <= j < i - 1 + k && !p(r[j]);
        assert ([c] + r)[j + 1] == r[j];
      }
    }
  }

  /** After `Squeeze` with a short replacement made of class characters, no run of `k`
      class characters is left. */
  lemma {:induction false} SqueezeNoRun(s: string, p: char -> bool, k: nat, rep: string)
    requires 0 < |rep| < k && forall j :: 0 <= j < |rep| ==> p(rep[j])
    ensures !HasRun(Squeeze(s, p, k, rep), p, k)
    decreases |s|
  {
    var r := Squeeze(s, p, k, rep);
    if s == [] {
      assert forall i :: !RunAt(r, p, k, i);
    } else if p(s[0]) {
      var n := RunLength(s, p);
      var head := if n >= k then rep else s[..n];
      SqueezeNoRun(s[n..], p, k, rep);
      NoRunAcross(head, Squeeze(s[n..], p, k, rep), p, k);
    } else {
      SqueezeNoRun(s[1..], p, k, rep);
      NoRunCons(s[0], Squeeze(s[1..], p, k, rep), p, k);
    }
  }

  /** `Squeeze` with a non-empty replacement made of class characters keeps the text
      empty or not, and keeps the class of its first and of its last character. */
  lemma SqueezeEnds(s: string, p: char -> bool, k: nat, rep: string)
    requires 0 < |rep| && forall j :: 0 <= j < |rep| ==> p(rep[j])
    ensures s == [] <==> Squeeze(s, p, k, rep) == []
    ensures s != [] ==> (p(Squeeze(s, p, k, rep)[0]) <==> p(s[0]))
    ensures s != [] ==> (p(Last(Squeeze(s, p, k, rep))) <==> p(Last(s)))
  {
    if s != [] {
      SqueezeLast(s, p, k, rep);
    }
  }

  lemma {:induction false} SqueezeLast(s: string, p: char -> bool, k: nat, rep: string)
    requires s != [] && 0 < |rep| && forall j :: 0 <= j < |rep| ==> p(rep[j])
    ensures Squeeze(s, p, k, rep) != []
    ensures p(Last(Squeeze(s, p, k, rep))) <==> p(Last(s))
    decreases |s|
  {
    var r := Squeeze(s, p, k, rep);
    if p(s[0]) {
      var n := RunLength(s, p);
      var head := if n >= k then rep else s[..n];
      var tail := s[n..];
      assert r == head + Squeeze(tail, p, k, rep);
      if tail == [] {
        assert Last(s) == s[n - 1];
        assert Last(r) == Last(head);
      } else {
        SqueezeLast(tail, p, k, rep);
        assert Last(s) == Last(tail);
      }
    } else {
      var tail := s[1..];
      assert r == [s[0]] + Squeeze(tail, p, k, rep);
      if tail != [] {
        SqueezeLast(tail, p, k, rep);
        assert Last(s) == Last(tail);
      }
    }
  }

  /** Cutting a piece out of a text creates no run. */
  lemma SliceNoRun(s: string, a: nat, b: nat, p: char -> bool, k: nat)
    requires a <= b <= |s| && !HasRun(s, p, k)
    ensures !HasRun(s[a..b], p, k)
  {
    forall i ensures !RunAt(s[a..b], p, k, i) {
      if 0 <= i && i + k <= b - a {
        assert !RunAt(s, p, k, i + a);
        var j :| i + a <= j < i + a + k && !p(s[j]);
        assert s[a..b][j - a] == s[j];
      }
    }
  }

  lemma StripNoRun(s: string, p: char -> bool, k: nat)
    requires !HasRun(s, p, k)
    ensures !HasRun(Strip(s), p, k)
  {
    var l := LStrip(s);
    LStripShape(s);
    RStripShape(l);
    SliceNoRun(s, |s| - |l|, |s|, p, k);
    assert s[|s| - |l|..|s|] == l;
    SliceNoRun(l, 0, |RStrip(l)|, p, k);
  }

  lemma StripAvoids(s: string, x: char)
    requires x !in s
    ensures x !in Strip(s)
  {
    var l := LStrip(s);
    LStripShape(s);
    RStripShape(l);
    assert x !in s[|s| - |l|..];
    assert x !in l[..|RStrip(l)|];
  }

  /** A text that starts with a non-space character keeps it in front after stripping. */
  lemma StripHead(s: string)
    requires s != [] && !IsSpace(s[0])
    ensures Strip(s) != [] && Strip(s)[0] == s[0]
  {
    LStripShape(s);
    RStripShape(s);
    var l := LStrip(s);
    assert |l| == |s| && l == s;
    var r := RStrip(l);
    assert r == s[..|r|];
  }

  /** A text holding a non-space character does not strip to nothing. */
  lemma NonSpaceStrip(s: string, i: int)
    requires 0 <= i < |s| && !IsSpace(s[i])
    ensures Strip(s) != []
  {
    LStripShape(s);
    var l := LStrip(s);
    RStripShape(l);
    var a := |s| - |l|;
    assert a <= i;
    assert l[i - a] == s[i];
  }

  /** A text that does not strip to nothing holds a non-space character. */
  lemma StripWitness(s: string) returns (i: int)
    requires Strip(s) != []
    ensures 0 <= i < |s| && !IsSpace(s[i])
  {
    var l := LStrip(s);
    LStripShape(s);
    RStripShape(l);
    i := |s| - |l|;
    assert l[0] == s[i];
  }

  /** Stripping a stripped text changes nothing. */
  lemma StripStripped(s: string)
    requires IsStripped(s)
    ensures Strip(s) == s
  {
    if s != [] {
      var l := LStrip(s);
      LStripShape(s);
      RStripShape(s);
      assert |l| == |s| && l == s;
      var r := RStrip(s);
      assert |r| == |s|;
    }
  }

  /** A text without any class character has no run. */
  lemma NoRunWithout(s: string, p: char -> bool, k: nat)
    requires k >= 1 && forall j :: 0 <= j < |s| ==> !p(s[j])
    ensures !HasRun(s, p, k)
  {
    forall i ensures !RunAt(s, p, k, i) {
      if 0 <= i && i + k <= |s| {
        assert !p(s[i]);
      }
    }
  }

  /** Non-class characters in front of a text create no run. */
  lemma {:induction false} NoRunPrefix(x: string, r: string, p: char -> bool, k: nat)
    requires k >= 1 && !HasRun(r, p, k)
    requires forall j :: 0 <= j < |x| ==> !p(x[j])
    ensures !HasRun(x + r, p, k)
  {
    if x == [] {
      assert x + r == r;
    } else {
      NoRunPrefix(x[1..], r, p, k);
      NoRunCons(x[0], x[1..] + r, p, k);
      assert x + r == [x[0]] + (x[1..] + r);
    }
  }

  /** `t` occurs in `s` at position `i`. */
  ghost predicate OccursAt(s: string, t: string, i: int) {
    0 <= i <= |s| - |t| && s[i..i + |t|] == t
  }

  /** `t` occurs in `s`. */
  ghost predicate Contains(s: string, t: string) {
    exists i :: OccursAt(s, t, i)
  }

  lemma NoRunNoTriple(s: string)
    requires !HasRun(s, IsNewline, 3)
    ensures !Contains(s, "\n\n\n")
  {
    forall i ensures !OccursAt(s, "\n\n\n", i) {
      if 0 <= i <= |s| - 3 {
        assert !RunAt(s, IsNewline, 3, i);
        var j :| i <= j < i + 3 && !IsNewline(s[j]);
        assert s[i..i + 3][j - i] != '\n';
      }
    }
  }

  // ---------------------------------------------------------------------------
  // `str.replace`.

  /** `s.replace(a, b)` for single characters. */
  function ReplaceChar(s: string, a: char, b: char): (r: string)
    ensures |r| == |s|
    ensures forall i :: 0 <= i < |s| ==> r[i] == (if s[i] == a then b else s[i])
    ensures a != b ==> a !in r
    ensures forall c :: c in r ==> c in s || c == b
  {
    if s == [] then [] else [if s[0] == a then b else s[0]] + ReplaceChar(s[1..], a, b)
  }

  /** `s.replace("\r\n", "\n")`: pairs are replaced left to right without overlap. */
  function ReplaceCrLf(s: string): (r: string)
    ensures forall c :: c in r ==> c in s
  {
    if |s| >= 2 && s[0] == '\r' && s[1] == '\n' then "\n" + ReplaceCrLf(s[2..])
    else if s == [] then []
    else [s[0]] + ReplaceCrLf(s[1..])
  }

  // ---------------------------------------------------------------------------
  // Splitting and joining.

  /** `sep.join(parts)`. */
  function JoinWith(parts: seq<string>, sep: string): string {
    if parts == [] then []
    else if |parts| == 1 then parts[0]
    else parts[0] + sep + JoinWith(parts[1..], sep)
  }

  /** A character in neither the separator nor any part is not in the joined string. */
  lemma {:induction false} JoinWithAvoids(parts: seq<string>, sep: string, x: char)
    requires x !in sep && forall q :: q in parts ==> x !in q
    ensures x !in JoinWith(parts, sep)
  {
    if |parts| > 1 {
      JoinWithAvoids(parts[1..], sep, x);
    }
  }

  /** The joined text starts with the first character of the first part. */
  lemma JoinWithHead(parts: seq<string>, sep: string)
    requires parts != [] && parts[0] != []
    ensures JoinWith(parts, sep) != [] && JoinWith(parts, sep)[0] == parts[0][0]
  {
  }

  /** The joined text ends with the last character of the last part. */
  lemma {:induction false} JoinWithLast(parts: seq<string>, sep: string)
    requires parts != [] && Last(parts) != []
    ensures JoinWith(parts, sep) != [] && Last(JoinWith(parts, sep)) == Last(Last(parts))
  {
    if |parts| > 1 {
      JoinWithLast(parts[1..], sep);
      assert Last(parts[1..]) == Last(parts);
    }
  }

  lemma JoinWithCons(x: string, rest: seq<string>, sep: string)
    requires rest != []
    ensures JoinWith([x] + rest, sep) == x + sep + JoinWith(rest, sep)
  {
    assert ([x] + rest)[1..] == rest;
  }

  /** `s.split(sep)` for a one-character separator: joining the pieces back with the
      separator gives `s` again, and no piece contains the separator. */
  function Split(s: string, sep: char): (r: seq<string>)
    ensures |r| >= 1
    ensures forall q :: q in r ==> sep !in q
  {
    if s == [] then [[]]
    else
      var rest := Split(s[1..], sep);
      if s[0] == sep then [[]] + rest
      else
        var r := [[s[0]] + rest[0]] + rest[1..];
        assert forall q :: q in r ==> q == [s[0]] + rest[0] || q in rest;
        r
  }

  /** Joining the pieces of `s.split(sep)` with the separator gives `s` back. */
  lemma {:induction false} SplitJoin(s: string, sep: char)
    ensures JoinWith(Split(s, sep), [sep]) == s
  {
    if s != [] {
      var rest := Split(s[1..], sep);
      SplitJoin(s[1..], sep);
      if s[0] == sep {
        JoinWithCons([], rest, [sep]);
      } else {
        JoinWithExtendHead(s[0], rest, [sep]);
      }
    }
  }

  /** Every character of `s` other than the separator lies in some piece of `s.split(sep)`. */
  lemma {:induction false} SplitCovers(s: string, sep: char, i: int) returns (k: int)
    requires 0 <= i < |s| && s[i] != sep
    ensures 0 <= k < |Split(s, sep)| && s[i] in Split(s, sep)[k]
  {
    if i == 0 {
      k := 0;
    } else {
      var k1 := SplitCovers(s[1..], sep, i - 1);
      assert s[1..][i - 1] == s[i];
      k := if s[0] == sep then k1 + 1 else k1;
    }
  }

  /** A character absent from `s` is absent from every piece of `s.split(sep)`. */
  lemma {:induction false} SplitAvoids(s: string, sep: char, x: char)
    requires x !in s
    ensures forall q :: q in Split(s, sep) ==> x !in q
  {
    if s != [] {
      SplitAvoids(s[1..], sep, x);
    }
  }

  lemma JoinWithExtendHead(c: char, parts: seq<string>, sep: string)
    requires parts != []
    ensures JoinWith([[c] + parts[0]] + parts[1..], sep) == [c] + JoinWith(parts, sep)
  {
    if |parts| > 1 {
      JoinWithCons(parts[0], parts[1..], sep);
      JoinWithCons([c] + parts[0], parts[1..], sep);
    }
  }

  /** `re.split(X{k,}, s)` where `X` is the class `p`: the text is cut at every maximal run
      of at least `k` class characters, and the runs are dropped. */
  function SplitRuns(s: string, p: char -> bool, k: nat): (r: seq<string>)
    requires k >= 1
    ensures |r| >= 1
    decreases |s|
  {
    if s == [] then [[]]
    else if p(s[0]) && RunLength(s, p) >= k then
      [[]] + SplitRuns(s[RunLength(s, p)..], p, k)
    else
      var rest := SplitRuns(s[1..], p, k);
      [[s[0]] + rest[0]] + rest[1..]
  }

  /** A character absent from `s` is absent from every piece of `re.split`. */
  lemma {:induction false} SplitRunsAvoids(s: string, p: char -> bool, k: nat, x: char)
    requires k >= 1 && x !in s
    ensures forall q :: q in SplitRuns(s, p, k) ==> x !in q
    decreases |s|
  {
    if s == [] {
    } else if p(s[0]) && RunLength(s, p) >= k {
      SplitRunsAvoids(s[RunLength(s, p)..], p, k, x);
    } else {
      SplitRunsAvoids(s[1..], p, k, x);
      var rest := SplitRuns(s[1..], p, k);
      assert forall q :: q in SplitRuns(s, p, k) ==> q == [s[0]] + rest[0] || q in rest;
    }
  }

  // ---------------------------------------------------------------------------
  // `str()` of integers and of lists of integers.

  function DigitChar(d: nat): (c: char)
    requires d < 10
    ensures '0' <= c <= '9'
  {
    "0123456789"[d]
  }

  /** Decimal digits of `n`, most significant first, without leading zeros. */
  function NatRepr(n: nat): (r: string)
    ensures r != []
    ensures forall c :: c in r ==> '0' <= c <= '9'
  {
    if n < 10 then [DigitChar(n)] else NatRepr(n / 10) + [DigitChar(n % 10)]
  }

  /** `str(n)` for an int. */
  function IntRepr(n: int): (r: string)
    ensures r != [] && (forall c :: c in r ==> c == '-' || '0' <= c <= '9')
  {
    if n < 0 then "-" + NatRepr(-n) else NatRepr(n)
  }

  function IntReprs(xs: seq<int>): (r: seq<string>)
    ensures |r| == |xs|
    ensures forall q, c :: q in r && c in q ==> c == '-' || '0' <= c <= '9'
  {
    if xs == [] then [] else [IntRepr(xs[0])] + IntReprs(xs[1..])
  }

  /** `str(xs)` for a list of ints: "[1, 2, 3]"; it never holds a backslash. */
  function IntListRepr(xs: seq<int>): (r: string)
    ensures '\\' !in r
  {
    JoinWithAvoids(IntReprs(xs), ", ", '\\');
    "[" + JoinWith(IntReprs(xs), ", ") + "]"
  }
}
