/** The few Python `str` and `list` built-ins that the text-preparation
    scripts rely on, defined on `seq<char>` with the behaviour Python gives
    them: `strip()`, `split(sep)`, `"".join`, `"%03d"`, string ordering and
    `list.sort()`. */
module PyStr {

  /** The characters for which Python's `str.isspace()` holds. */
  const Whitespace: set<char> :=
    {'\t', '\n', '\U{000B}', '\U{000C}', '\r', '\U{001C}', '\U{001D}', '\U{001E}', '\U{001F}',
     ' ', '\U{0085}', '\U{00A0}', '\U{1680}',
     '\U{2000}', '\U{2001}', '\U{2002}', '\U{2003}', '\U{2004}', '\U{2005}', '\U{2006}',
     '\U{2007}', '\U{2008}', '\U{2009}', '\U{200A}',
     '\U{2028}', '\U{2029}', '\U{202F}', '\U{205F}', '\U{3000}'}

  predicate IsSpace(c: char)
  {
    c in Whitespace
  }

  predicate AllSpace(s: string)
  {
    forall k :: 0 <= k < |s| ==> IsSpace(s[k])
  }

  /** `s.lstrip()`. */
  function StripLeft(s: string): string
  {
    if s != [] && IsSpace(s[0]) then StripLeft(s[1..]) else s
  }

  /** `s.rstrip()`. */
  function StripRight(s: string): string
  {
    if s != [] && IsSpace(s[|s| - 1]) then StripRight(s[..|s| - 1]) else s
  }

  /** `s.strip()`. */
  function Strip(s: string): string
  {
    StripRight(StripLeft(s))
  }

  /** lstrip leaves a suffix. */
  lemma {:induction false} StripLeftSuffix(s: string)
    ensures |StripLeft(s)| <= |s| && StripLeft(s) == s[|s| - |StripLeft(s)|..]
  {
    if s != [] && IsSpace(s[0]) {
      StripLeftSuffix(s[1..]);
      var m := |s| - |StripLeft(s[1..])|;
      assert s[m..] == s[1..][m - 1..];
    }
  }

  /** What lstrip drops is whitespace. */
  lemma {:induction false} StripLeftDropsSpace(s: string)
    ensures |StripLeft(s)| <= |s| && AllSpace(s[..|s| - |StripLeft(s)|])
  {
    if s != [] && IsSpace(s[0]) {
      StripLeftDropsSpace(s[1..]);
      var m := |s| - |StripLeft(s[1..])|;
      forall k | 0 <= k < m ensures IsSpace(s[..m][k]) {
        if k > 0 { assert s[..m][k] == s[1..][..m - 1][k - 1]; }
      }
    }
  }

  /** What lstrip keeps does not start with whitespace. */
  lemma {:induction false} StripLeftHead(s: string)
    ensures StripLeft(s) != [] ==> !IsSpace(StripLeft(s)[0])
  {
    if s != [] && IsSpace(s[0]) {
      StripLeftHead(s[1..]);
    }
  }

  /** rstrip leaves the prefix before the trailing whitespace. */
  lemma {:induction false} StripRightShape(s: string)
    ensures var r := StripRight(s);
      |r| <= |s| && r == s[..|r|] && AllSpace(s[|r|..])
      && (r != [] ==> !IsSpace(r[|r| - 1]))
  {
    if s != [] && IsSpace(s[|s| - 1]) {
      var t := StripRight(s[..|s| - 1]);
      StripRightShape(s[..|s| - 1]);
      assert s[|t|..] == s[..|s| - 1][|t|..] + [s[|s| - 1]];
    } else {
      assert s[|s|..] == [];
    }
  }

  /** What `strip()` returns is s with whitespace-only margins cut off, and
      it neither starts nor ends with whitespace. */
  lemma StripShape(s: string)
    ensures var r := Strip(s);
      exists i :: 0 <= i <= i + |r| <= |s| && r == s[i..i + |r|]
        && AllSpace(s[..i]) && AllSpace(s[i + |r|..])
    ensures Strip(s) != [] ==> !IsSpace(Strip(s)[0]) && !IsSpace(Strip(s)[|Strip(s)| - 1])
  {
    var l := StripLeft(s);
    var r := StripRight(l);
    StripLeftSuffix(s);
    StripLeftDropsSpace(s);
    StripLeftHead(s);
    StripRightShape(l);
    var i := |s| - |l|;
    assert r == s[i..i + |r|];
    assert s[i + |r|..] == l[|r|..];
    if r != [] {
      assert r[0] == l[0];
    }
  }

  /** Stripping twice is stripping once. */
  lemma StripIdempotent(s: string)
    ensures Strip(Strip(s)) == Strip(s)
  {
    var r := Strip(s);
    StripShape(s);
    StripRightShape(r);
    if r != [] {
      assert StripLeft(r) == r;
    }
  }

  /** s holds no c. */
  predicate Free(s: string, c: char)
  {
    forall t :: 0 <= t < |s| ==> s[t] != c
  }

  /** `s.find(c)`, with |s| (rather than -1) when c does not occur. */
  function Find(s: string, c: char): (i: nat)
    ensures i <= |s| && Free(s[..i], c)
    ensures i < |s| ==> s[i] == c
  {
    if s == [] || s[0] == c then 0 else
      var j := Find(s[1..], c);
      assert s[..j + 1] == [s[0]] + s[1..][..j];
      j + 1
  }

  /** The first occurrence is the one with no c before it. */
  lemma FindAt(s: string, c: char, p: nat)
    requires p <= |s| && Free(s[..p], c) && (p < |s| ==> s[p] == c)
    ensures Find(s, c) == p
  {
    var i := Find(s, c);
    assert forall t :: 0 <= t < p ==> s[t] != c by {
      forall t | 0 <= t < p ensures s[t] != c { assert s[t] == s[..p][t]; }
    }
    assert forall t :: 0 <= t < i ==> s[t] != c by {
      forall t | 0 <= t < i ensures s[t] != c { assert s[t] == s[..i][t]; }
    }
  }

  /** `s.split(c)` for a one-character separator: the maximal c-free pieces
      between separators, empty pieces included. */
  function SplitOn(s: string, c: char): (r: seq<string>)
    ensures |r| >= 1
    ensures forall k :: 0 <= k < |r| ==> Free(r[k], c)
    decreases |s|
  {
    var i := Find(s, c);
    if i == |s| then [s]
    else [s[..i]] + SplitOn(s[i + 1..], c)
  }

  /** `sep.join(pieces)` for a one-character separator. */
  function JoinWith(pieces: seq<string>, c: char): string
    requires |pieces| >= 1
  {
    if |pieces| == 1 then pieces[0] else pieces[0] + [c] + JoinWith(pieces[1..], c)
  }

  /** Joining the pieces back with the separator gives the string back. */
  lemma {:induction false} JoinSplit(s: string, c: char)
    ensures JoinWith(SplitOn(s, c), c) == s
    decreases |s|
  {
    var i := Find(s, c);
    if i < |s| {
      var rest := s[i + 1..];
      JoinSplit(rest, c);
      SplitAtFirst(s, c);
      var pieces := SplitOn(rest, c);
      JoinCons(s[..i], pieces, c);
      CutAt(s, i);
    } else {
      assert s[..i] == s;
      assert SplitOn(s, c) == [s];
    }
  }

  /** A string is what comes before position i, the character there, and
      what follows. */
  lemma CutAt(s: string, i: nat)
    requires i < |s|
    ensures s == s[..i] + [s[i]] + s[i + 1..]
  {
    assert s[..i] + [s[i]] == s[..i + 1];
  }

  /** Joining a piece in front of at least one more adds it and a separator. */
  lemma JoinCons(p: string, pieces: seq<string>, c: char)
    requires |pieces| >= 1
    ensures JoinWith([p] + pieces, c) == p + [c] + JoinWith(pieces, c)
  {
    assert ([p] + pieces)[1..] == pieces;
  }

  /** Splitting separator-free pieces joined with the separator gives the
      pieces back. */
  lemma {:induction false} SplitJoin(pieces: seq<string>, c: char)
    requires |pieces| >= 1
    requires forall k :: 0 <= k < |pieces| ==> Free(pieces[k], c)
    ensures SplitOn(JoinWith(pieces, c), c) == pieces
  {
    var p := pieces[0];
    if |pieces| == 1 {
      FindAt(p, c, |p|);
      assert p[..|p|] == p;
    } else {
      var rest := JoinWith(pieces[1..], c);
      var s := p + [c] + rest;
      SplitJoin(pieces[1..], c);
      assert s[..|p|] == p;
      FindAt(s, c, |p|);
      assert s[|p| + 1..] == rest;
    }
  }

  /** `"".join(pieces)`. */
  function Concat(pieces: seq<string>): string
  {
    if pieces == [] then [] else pieces[0] + Concat(pieces[1..])
  }

  /** s with every c deleted. */
  function RemoveAll(s: string, c: char): (r: string)
    ensures |r| <= |s|
    ensures Free(r, c)
    ensures forall x :: x != c ==> multiset(r)[x] == multiset(s)[x]
  {
    if s == [] then []
    else
      assert s == [s[0]] + s[1..];
      (if s[0] == c then [] else [s[0]]) + RemoveAll(s[1..], c)
  }

  /** One step of the deletion: the first character, unless it is c. */
  lemma RemoveAllHead(s: string, c: char)
    requires s != []
    ensures RemoveAll(s, c) == (if s[0] == c then [] else [s[0]]) + RemoveAll(s[1..], c)
  {
  }

  lemma {:induction false} RemoveAllAppend(a: string, b: string, c: char)
    ensures RemoveAll(a + b, c) == RemoveAll(a, c) + RemoveAll(b, c)
  {
    if a != [] {
      assert (a + b)[0] == a[0] && (a + b)[1..] == a[1..] + b;
      RemoveAllAppend(a[1..], b, c);
      RemoveAllHead(a + b, c);
      RemoveAllHead(a, c);
    } else {
      assert a + b == b;
    }
  }

  lemma {:induction false} RemoveAllFree(s: string, c: char)
    requires Free(s, c)
    ensures RemoveAll(s, c) == s
  {
    if s != [] {
      RemoveAllFree(s[1..], c);
    }
  }

  /** Gluing the pieces of a split is deleting the separator. */
  lemma {:induction false} ConcatSplit(s: string, c: char)
    ensures Concat(SplitOn(s, c)) == RemoveAll(s, c)
    decreases |s|
  {
    var i := Find(s, c);
    var head := s[..i];
    RemoveAllFree(head, c);
    if i == |s| {
      assert head == s;
      assert Concat([s]) == s + Concat([]);
    } else {
      var tail := s[i + 1..];
      ConcatSplit(tail, c);
      SplitAtFirst(s, c);
      assert Concat(SplitOn(s, c)) == head + Concat(SplitOn(tail, c));
      RemoveAtFirst(s, c);
    }
  }

  /** Splitting at the first separator: the piece before it, then the split
      of the rest. */
  lemma SplitAtFirst(s: string, c: char)
    requires Find(s, c) < |s|
    ensures SplitOn(s, c) == [s[..Find(s, c)]] + SplitOn(s[Find(s, c) + 1..], c)
  {
  }

  /** Deleting c from s is deleting it from what follows the first c. */
  lemma RemoveAtFirst(s: string, c: char)
    requires Find(s, c) < |s|
    ensures RemoveAll(s, c) == s[..Find(s, c)] + RemoveAll(s[Find(s, c) + 1..], c)
  {
    var i := Find(s, c);
    var head, tail := s[..i], s[i + 1..];
    assert s == head + ([c] + tail);
    RemoveAllAppend(head, [c] + tail, c);
    RemoveAllFree(head, c);
    assert ([c] + tail)[1..] == tail;
    assert RemoveAll([c] + tail, c) == RemoveAll(tail, c);
  }

  /** `"".join(s.split(c)[1:])`: everything after the first c, with every
      later c deleted; nothing at all when s holds no c. */
  lemma AfterFirstSeparator(s: string, c: char)
    ensures Find(s, c) == |s| ==> Concat(SplitOn(s, c)[1..]) == []
    ensures Find(s, c) < |s| ==> Concat(SplitOn(s, c)[1..]) == RemoveAll(s[Find(s, c) + 1..], c)
  {
    var i := Find(s, c);
    if i < |s| {
      assert SplitOn(s, c)[1..] == SplitOn(s[i + 1..], c);
      ConcatSplit(s[i + 1..], c);
    }
  }

  /** The last element of a non-empty sequence (Python's `xs[-1]`). */
  function Last<T>(xs: seq<T>): T
    requires xs != []
  {
    xs[|xs| - 1]
  }

  /** The last piece of a split is whatever follows the last separator. */
  lemma {:induction false} LastPieceAfterSeparator(x: string, f: string, c: char)
    requires Free(f, c)
    ensures Last(SplitOn(x + [c] + f, c)) == f
    decreases |x|
  {
    var s := x + [c] + f;
    var i := Find(s, c);
    if i < |x| {
      var rest := s[i + 1..];
      assert rest == x[i + 1..] + [c] + f;
      LastPieceAfterSeparator(x[i + 1..], f, c);
      assert SplitOn(s, c) == [s[..i]] + SplitOn(rest, c);
      assert Last(SplitOn(s, c)) == Last(SplitOn(rest, c));
    } else {
      assert s[..|x|] == x;
      FindAt(s, c, |x|);
      var t := s[i + 1..];
      assert t == f;
      FindAt(t, c, |t|);
      assert t[..|t|] == t;
    }
  }

  /** Python string comparison `a <= b`: code point by code point, a proper
      prefix coming first. */
  predicate LexLe(a: string, b: string)
  {
    a == [] || (b != [] && (a[0] < b[0] || (a[0] == b[0] && LexLe(a[1..], b[1..]))))
  }

  lemma {:induction false} LexRefl(a: string)
    ensures LexLe(a, a)
  {
    if a != [] {
      LexRefl(a[1..]);
    }
  }

  lemma {:induction false} LexTotal(a: string, b: string)
    ensures LexLe(a, b) || LexLe(b, a)
  {
    if a != [] && b != [] && a[0] == b[0] {
      LexTotal(a[1..], b[1..]);
    }
  }

  lemma {:induction false} LexTrans(a: string, b: string, c: string)
    requires LexLe(a, b) && LexLe(b, c)
    ensures LexLe(a, c)
  {
    if a != [] && b != [] && c != [] && a[0] == b[0] == c[0] {
      LexTrans(a[1..], b[1..], c[1..]);
    }
  }

  lemma {:induction false} LexAntisym(a: string, b: string)
    requires LexLe(a, b) && LexLe(b, a)
    ensures a == b
  {
    if a != [] && b != [] {
      LexAntisym(a[1..], b[1..]);
      assert a == [a[0]] + a[1..] && b == [b[0]] + b[1..];
    }
  }

  predicate Sorted(xs: seq<string>)
  {
    forall i, j :: 0 <= i < j < |xs| ==> LexLe(xs[i], xs[j])
  }

  /** x placed into a sorted list at the first position where it fits. */
  function Insert(x: string, xs: seq<string>): (r: seq<string>)
    requires Sorted(xs)
    ensures Sorted(r)
    ensures multiset(r) == multiset(xs) + multiset{x}
  {
    if xs == [] then [x]
    else if LexLe(x, xs[0]) then
      InsertFront(x, xs);
      [x] + xs
    else
      assert xs == [xs[0]] + xs[1..];
      var t := Insert(x, xs[1..]);
      InsertBehind(x, xs, t);
      [xs[0]] + t
  }

  /** x goes in front of a sorted list whose head it does not exceed. */
  lemma InsertFront(x: string, xs: seq<string>)
    requires Sorted(xs) && xs != [] && LexLe(x, xs[0])
    ensures Sorted([x] + xs)
  {
    var r := [x] + xs;
    forall i, j | 0 <= i < j < |r| ensures LexLe(r[i], r[j]) {
      if i == 0 {
        if j > 1 { LexTrans(x, xs[0], xs[j - 1]); }
      } else {
        assert r[i] == xs[i - 1] && r[j] == xs[j - 1];
      }
    }
  }

  /** The head of a sorted list stays in front of x inserted into its tail. */
  lemma InsertBehind(x: string, xs: seq<string>, t: seq<string>)
    requires Sorted(xs) && xs != [] && !LexLe(x, xs[0])
    requires Sorted(t) && multiset(t) == multiset(xs[1..]) + multiset{x}
    ensures Sorted([xs[0]] + t)
  {
    LexTotal(x, xs[0]);
    var r := [xs[0]] + t;
    forall i, j | 0 <= i < j < |r| ensures LexLe(r[i], r[j]) {
      if i == 0 {
        var y := t[j - 1];
        assert y in multiset(t);
        if y != x {
          assert y in multiset(xs[1..]);
          var k :| 0 <= k < |xs[1..]| && xs[1..][k] == y;
          assert xs[k + 1] == y;
        }
      } else {
        assert r[i] == t[i - 1] && r[j] == t[j - 1];
      }
    }
  }

  /** `xs.sort()` on a list of strings. */
  function Sort(xs: seq<string>): (r: seq<string>)
    ensures Sorted(r)
    ensures multiset(r) == multiset(xs)
  {
    if xs == [] then []
    else
      assert xs == [xs[0]] + xs[1..];
      Insert(xs[0], Sort(xs[1..]))
  }

  /** Sorting keeps exactly the same elements and the length. */
  lemma SortMembers(xs: seq<string>)
    ensures |Sort(xs)| == |xs|
    ensures forall p :: p in Sort(xs) <==> p in xs
  {
    var r := Sort(xs);
    assert |r| == |multiset(r)| == |multiset(xs)| == |xs|;
    forall p ensures p in r <==> p in xs {
      assert p in r <==> p in multiset(r);
      assert p in xs <==> p in multiset(xs);
    }
  }

  lemma SortedTail(xs: seq<string>)
    requires Sorted(xs) && xs != []
    ensures Sorted(xs[1..])
  {
    forall i, j | 0 <= i < j < |xs| - 1 ensures LexLe(xs[1..][i], xs[1..][j]) {
      assert xs[1..][i] == xs[i + 1] && xs[1..][j] == xs[j + 1];
    }
  }

  /** Two sorted arrangements of one multiset start with the same string. */
  lemma SortedSameHead(a: seq<string>, b: seq<string>)
    requires Sorted(a) && Sorted(b) && multiset(a) == multiset(b) && a != []
    ensures b != [] && a[0] == b[0]
  {
    assert a[0] in multiset(a);
    assert b != [];
    assert b[0] in multiset(b);
    var i :| 0 <= i < |b| && b[i] == a[0];
    var j :| 0 <= j < |a| && a[j] == b[0];
    LexRefl(a[0]);
    LexRefl(b[0]);
    assert LexLe(b[0], b[i]) && LexLe(a[0], a[j]);
    LexAntisym(a[0], b[0]);
  }

  /** Under a total order there is one sorted arrangement of a multiset, so
      any correct sort (Python's included) returns what Sort returns. */
  lemma {:induction false} SortedUnique(a: seq<string>, b: seq<string>)
    requires Sorted(a) && Sorted(b) && multiset(a) == multiset(b)
    ensures a == b
  {
    if a == [] {
      assert |b| == |multiset(b)| == 0;
    } else {
      SortedSameHead(a, b);
      assert a == [a[0]] + a[1..] && b == [b[0]] + b[1..];
      assert multiset(a[1..]) == multiset(b[1..]) by {
        var x, ta, tb := a[0], multiset(a[1..]), multiset(b[1..]);
        assert multiset(a) == multiset{x} + ta;
        assert multiset(b) == multiset{x} + tb;
        forall y ensures ta[y] == tb[y] {
          assert (multiset{x} + ta)[y] == (multiset{x} + tb)[y];
        }
      }
      SortedTail(a);
      SortedTail(b);
      SortedUnique(a[1..], b[1..]);
    }
  }

  /** Decimal digit characters. */
  function DigitChar(d: nat): char
    requires d < 10
  {
    ['0', '1', '2', '3', '4', '5', '6', '7', '8', '9'][d]
  }

  function DigitValue(ch: char): nat
  {
    if '0' <= ch <= '9' then (ch as int - '0' as int) as nat else 0
  }

  predicate IsDigit(ch: char)
  {
    '0' <= ch <= '9'
  }

  /** `"%d" % k`: the decimal representation of k without leading zeros. */
  function Digits(k: nat): (r: string)
    ensures 1 <= |r|
    ensures forall t :: 0 <= t < |r| ==> IsDigit(r[t])
    ensures k < 10 <==> |r| == 1
    ensures r[0] == '0' <==> k == 0
  {
    if k < 10 then [DigitChar(k)] else Digits(k / 10) + [DigitChar(k % 10)]
  }

  /** The number a string of decimal digits denotes. */
  function Parse(s: string): nat
  {
    if s == [] then 0 else 10 * Parse(s[..|s| - 1]) + DigitValue(s[|s| - 1])
  }

  function Zeros(m: nat): (r: string)
    ensures |r| == m
    ensures forall t :: 0 <= t < m ==> r[t] == '0'
  {
    if m == 0 then [] else Zeros(m - 1) + ['0']
  }

  /** `"%03d" % k`: decimal, left-padded with zeros to at least 3 digits. */
  function Pad3(k: nat): string
  {
    var d := Digits(k);
    (if |d| < 3 then Zeros(3 - |d|) else []) + d
  }

  lemma {:induction false} ParseDigits(k: nat)
    ensures Parse(Digits(k)) == k
  {
    if k >= 10 {
      ParseDigits(k / 10);
      var d := Digits(k);
      assert d == Digits(k / 10) + [DigitChar(k % 10)];
      assert d[..|d| - 1] == Digits(k / 10);
      DigitValueChar(k % 10);
      assert Parse(d) == 10 * (k / 10) + k % 10;
    }
  }

  /** Reading a digit character back gives its value. */
  lemma DigitValueChar(d: nat)
    requires d < 10
    ensures DigitValue(DigitChar(d)) == d
  {
  }

  lemma {:induction false} ParseAppend(a: string, b: string)
    requires forall t :: 0 <= t < |a| ==> a[t] == '0'
    ensures Parse(a + b) == Parse(b)
    decreases |b|
  {
    if b == [] {
      assert a + b == a;
      ParseZeros(a);
    } else {
      assert (a + b)[..|a + b| - 1] == a + b[..|b| - 1];
      ParseAppend(a, b[..|b| - 1]);
    }
  }

  lemma {:induction false} ParseZeros(a: string)
    requires forall t :: 0 <= t < |a| ==> a[t] == '0'
    ensures Parse(a) == 0
  {
    if a != [] {
      ParseZeros(a[..|a| - 1]);
    }
  }

  /** "%03d" is a decimal numeral of at least 3 digits, exactly 3 below
      1000, and reading it back gives the number. */
  lemma Pad3Shape(k: nat)
    ensures |Pad3(k)| >= 3
    ensures forall t :: 0 <= t < |Pad3(k)| ==> IsDigit(Pad3(k)[t])
    ensures k < 1000 ==> |Pad3(k)| == 3
    ensures Parse(Pad3(k)) == k
  {
    var d := Digits(k);
    ParseDigits(k);
    ParseAppend(if |d| < 3 then Zeros(3 - |d|) else [], d);
    if k < 1000 {
      DigitsBelow(k);
    }
  }

  lemma {:induction false} DigitsBelow(k: nat)
    requires k < 1000
    ensures |Digits(k)| <= 3
  {
    if k >= 10 {
      DigitsBelow(k / 10);
      if k >= 100 {
        assert k / 10 >= 10;
      } else {
        assert k / 10 < 10;
      }
    }
  }

  /** Distinct numbers get distinct "%03d" numerals. */
  lemma Pad3Injective(j: nat, k: nat)
    requires Pad3(j) == Pad3(k)
    ensures j == k
  {
    Pad3Shape(j);
    Pad3Shape(k);
  }
}
