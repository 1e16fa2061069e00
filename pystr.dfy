/** Character classes and string primitives of the Python runtime that the
    flashcard helpers rely on: whitespace (`\s`, `str.strip()`), ASCII case
    folding for `re.I`, `str.upper()`, slicing `s[:n]`, and small scanners
    that the regular-expression matchers are built from. */
module PyStr {

  datatype Option<T> = None | Some(value: T)

  /** One fixed whitespace predicate, used both for `\s` in a `str` pattern
      and for `str.strip()` / `str.isspace()`: the characters Python treats
      as whitespace. */
  predicate IsSpace(c: char) {
    c == ' ' || '\t' <= c <= '\r' || '\U{1C}' <= c <= '\U{1F}'
    || c == '\U{85}' || c == '\U{A0}' || c == '\U{1680}'
    || '\U{2000}' <= c <= '\U{200A}' || c == '\U{2028}' || c == '\U{2029}'
    || c == '\U{202F}' || c == '\U{205F}' || c == '\U{3000}'
  }

  predicate IsAsciiAlnum(c: char) {
    'a' <= c <= 'z' || 'A' <= c <= 'Z' || '0' <= c <= '9'
  }

  /** `\w` restricted to ASCII. */
  predicate IsWordChar(c: char) {
    IsAsciiAlnum(c) || c == '_'
  }

  /** ASCII lower-casing, as `re.I` and `str.lower()` apply it to ASCII text. */
  function Lower(c: char): (r: char)
    ensures 'A' <= c <= 'Z' ==> 'a' <= r <= 'z'
    ensures !('A' <= c <= 'Z') ==> r == c
  {
    if 'A' <= c <= 'Z' then (c as int + 32) as char else c
  }

  /** `str.upper()` of one character: ASCII letters, and U+00DF (sharp s),
      whose upper case is the two letters "SS". */
  function UpperChar(c: char): (r: string)
    ensures 1 <= |r| <= 2
    ensures 'a' <= c <= 'z' ==> r == [(c as int - 32) as char]
  {
    if 'a' <= c <= 'z' then [(c as int - 32) as char]
    else if c == '\U{DF}' then "SS"
    else [c]
  }

  function Upper(s: string): (r: string)
    ensures |s| <= |r| <= 2 * |s|
  {
    if s == [] then [] else UpperChar(s[0]) + Upper(s[1..])
  }

  /** Python's `s[:n]` for a non-negative `n`. */
  function Take(s: string, n: nat): (r: string)
    ensures |r| == if |s| <= n then |s| else n
    ensures r == s[..|r|]
  {
    if |s| <= n then s else s[..n]
  }

  /** Drops the leading characters that satisfy `p`. */
  function LStripBy(s: string, p: char -> bool): (r: string)
    ensures |r| <= |s| && r == s[|s| - |r|..]
    ensures r == [] || !p(r[0])
    ensures forall i :: 0 <= i < |s| - |r| ==> p(s[i])
    decreases |s|
  {
    if s != [] && p(s[0]) then
      var r := LStripBy(s[1..], p);
      assert s[1..][|s| - 1 - |r|..] == s[|s| - |r|..];
      assert forall i :: 0 < i < |s| ==> s[1..][i - 1] == s[i];
      r
    else s
  }

  /** Drops the trailing characters that satisfy `p`. */
  function RStripBy(s: string, p: char -> bool): (r: string)
    ensures |r| <= |s| && r == s[..|r|]
    ensures r == [] || !p(r[|r| - 1])
    ensures forall i :: |r| <= i < |s| ==> p(s[i])
    decreases |s|
  {
    if s != [] && p(s[|s| - 1]) then RStripBy(s[..|s| - 1], p) else s
  }

  function StripBy(s: string, p: char -> bool): (r: string)
  {
    RStripBy(LStripBy(s, p), p)
  }

  /** Stripping changes nothing when neither end satisfies `p`. */
  lemma StripByNoop(s: string, p: char -> bool)
    requires s == [] || (!p(s[0]) && !p(s[|s| - 1]))
    ensures StripBy(s, p) == s
  {
    assert LStripBy(s, p) == s;
  }

  /** Every character of `x` satisfies `p`. */
  predicate AllSatisfy(x: string, p: char -> bool) {
    forall k :: 0 <= k < |x| ==> p(x[k])
  }

  /** `s` is `x + r + y`, where `x` and `y` are made of characters that
      satisfy `p`: `r` is a contiguous piece of `s` and only characters
      satisfying `p` lie around it. */
  predicate StripSplit(s: string, x: string, r: string, y: string, p: char -> bool) {
    s == x + r + y && AllSatisfy(x, p) && AllSatisfy(y, p)
  }

  /** The characters `StripBy` drops at the front. */
  function StripHead(s: string, p: char -> bool): string {
    s[..|s| - |LStripBy(s, p)|]
  }

  /** The characters `StripBy` drops at the back. */
  function StripTail(s: string, p: char -> bool): string {
    var l := LStripBy(s, p);
    l[|RStripBy(l, p)|..]
  }

  /** The left strip drops exactly `StripHead`, whose characters satisfy `p`. */
  lemma HeadSplit(s: string, p: char -> bool)
    ensures s == StripHead(s, p) + LStripBy(s, p) && AllSatisfy(StripHead(s, p), p)
  {
    var l := LStripBy(s, p);
    var x := s[..|s| - |l|];
    assert s == x + s[|s| - |l|..];
    forall k | 0 <= k < |x| ensures p(x[k]) {
      assert x[k] == s[k];
    }
  }

  /** The right strip of `l` drops exactly its `StripTail`, whose characters
      satisfy `p`. */
  lemma TailSplit(l: string, p: char -> bool)
    ensures var r := RStripBy(l, p); l == r + l[|r|..] && AllSatisfy(l[|r|..], p)
  {
    var r := RStripBy(l, p);
    var y := l[|r|..];
    assert l == l[..|r|] + y;
    forall k | 0 <= k < |y| ensures p(y[k]) {
      assert y[k] == l[|r| + k];
    }
  }

  /** Stripping keeps one contiguous piece of `s`, and what it drops around
      that piece satisfies `p`. */
  lemma StripBySpec(s: string, p: char -> bool)
    ensures StripSplit(s, StripHead(s, p), StripBy(s, p), StripTail(s, p), p)
  {
    var l := LStripBy(s, p);
    var r := RStripBy(l, p);
    HeadSplit(s, p);
    TailSplit(l, p);
    JoinSplits(s, StripHead(s, p), l, r, StripTail(s, p), p);
  }

  /** A head split off `s` and a tail split off the rest make one split. */
  lemma JoinSplits(s: string, x: string, l: string, r: string, y: string, p: char -> bool)
    requires s == x + l && AllSatisfy(x, p)
    requires l == r + y && AllSatisfy(y, p)
    ensures StripSplit(s, x, r, y, p)
  {
    assert x + l == x + r + y;
  }

  /** Neither end of the stripped piece satisfies `p`, so nothing more could
      be dropped. */
  lemma StripByEnds(s: string, p: char -> bool)
    ensures var r := StripBy(s, p); r == [] || (!p(r[0]) && !p(r[|r| - 1]))
  {
    var l := LStripBy(s, p);
    var r := RStripBy(l, p);
    if r != [] {
      assert r[0] == l[0];
    }
  }

  /** Two successive strips, by `p` and then by `q`, compose into one split
      whose dropped characters satisfy `p` or `q`, and so `pq`. */
  lemma StripSplitCompose(s: string, x1: string, m: string, y1: string,
                          x2: string, r: string, y2: string,
                          p: char -> bool, q: char -> bool, pq: char -> bool)
    requires StripSplit(s, x1, m, y1, p) && StripSplit(m, x2, r, y2, q)
    requires forall c :: p(c) ==> pq(c)
    requires forall c :: q(c) ==> pq(c)
    ensures StripSplit(s, x1 + x2, r, y2 + y1, pq)
  {
    assert s == (x1 + x2) + r + (y2 + y1);
    assert AllSatisfy(x1 + x2, pq) by {
      forall k | 0 <= k < |x1 + x2| ensures pq((x1 + x2)[k]) {
        if k < |x1| {
          assert (x1 + x2)[k] == x1[k];
        } else {
          assert (x1 + x2)[k] == x2[k - |x1|];
        }
      }
    }
    assert AllSatisfy(y2 + y1, pq) by {
      forall k | 0 <= k < |y2 + y1| ensures pq((y2 + y1)[k]) {
        if k < |y2| {
          assert (y2 + y1)[k] == y2[k];
        } else {
          assert (y2 + y1)[k] == y1[k - |y2|];
        }
      }
    }
  }

  /** Leading characters that satisfy `p` are all dropped, and no more. */
  lemma {:induction false} LStripPrefix(x: string, y: string, p: char -> bool)
    requires forall k :: 0 <= k < |x| ==> p(x[k])
    requires y == [] || !p(y[0])
    ensures LStripBy(x + y, p) == y
    decreases |x|
  {
    if x == [] {
      assert x + y == y;
    } else {
      assert (x + y)[1..] == x[1..] + y;
      LStripPrefix(x[1..], y, p);
    }
  }

  /** Trailing characters that satisfy `p` are all dropped, and no more. */
  lemma {:induction false} RStripSuffix(x: string, y: string, p: char -> bool)
    requires forall k :: 0 <= k < |y| ==> p(y[k])
    requires x == [] || !p(x[|x| - 1])
    ensures RStripBy(x + y, p) == x
    decreases |y|
  {
    if y == [] {
      assert x + y == x;
    } else {
      var y' := y[..|y| - 1];
      assert (x + y)[..|x + y| - 1] == x + y';
      RStripSuffix(x, y', p);
    }
  }

  /** `str.strip()` with no argument. */
  function Strip(s: string): (r: string)
  {
    StripBy(s, IsSpace)
  }

  predicate IsStripped(s: string) {
    s == [] || (!IsSpace(s[0]) && !IsSpace(s[|s| - 1]))
  }

  predicate AllSpace(s: string, i: nat, j: nat)
    requires i <= j <= |s|
  {
    forall k :: i <= k < j ==> IsSpace(s[k])
  }

  /** Where the whitespace run that starts at `i` ends: what a greedy `\s*`
      starting at `i` consumes. */
  function SpanSpace(s: string, i: nat): (r: nat)
    requires i <= |s|
    ensures i <= r <= |s|
    ensures AllSpace(s, i, r)
    ensures r == |s| || !IsSpace(s[r])
    decreases |s| - i
  {
    if i < |s| && IsSpace(s[i]) then SpanSpace(s, i + 1) else i
  }

  /** A whitespace run from `i` that stops at a non-space character (or the
      end) is the one `SpanSpace` finds. */
  lemma SpanSpaceUnique(s: string, i: nat, v: nat)
    requires i <= v <= |s| && AllSpace(s, i, v) && (v == |s| || !IsSpace(s[v]))
    ensures SpanSpace(s, i) == v
    decreases |s| - i
  {
    if i < v {
      SpanSpaceUnique(s, i + 1, v);
    }
  }

  /** The first `n` elements, none for `n <= 0`: what a loop that stops
      once it holds `n` elements keeps. */
  function Prefix<T>(xs: seq<T>, n: int): (r: seq<T>)
    ensures |r| == if n <= 0 then 0 else if |xs| <= n then |xs| else n
    ensures r == xs[..|r|]
  {
    if n <= 0 then [] else if |xs| <= n then xs else xs[..n]
  }

  /** The values of the present elements, in order. */
  function Somes<T>(os: seq<Option<T>>): seq<T>
    decreases |os|
  {
    if os == [] then []
    else Somes(os[..|os| - 1]) + (if os[|os| - 1].Some? then [os[|os| - 1].value] else [])
  }

  /** The number of present elements. */
  function SomeCount<T>(os: seq<Option<T>>): (r: nat)
    ensures r <= |os|
    decreases |os|
  {
    if os == [] then 0 else SomeCount(os[..|os| - 1]) + (if os[|os| - 1].Some? then 1 else 0)
  }

  lemma SomesStep<T>(os: seq<Option<T>>, i: nat)
    requires i < |os|
    ensures Somes(os[..i + 1]) == Somes(os[..i]) + (if os[i].Some? then [os[i].value] else [])
  {
    assert os[..i + 1][..i] == os[..i];
  }

  lemma {:induction false} SomesAppend<T>(a: seq<Option<T>>, b: seq<Option<T>>)
    ensures Somes(a + b) == Somes(a) + Somes(b)
    decreases |b|
  {
    if b == [] {
      assert a + b == a;
    } else {
      var b' := b[..|b| - 1];
      SomesAppend(a, b');
      assert (a + b)[..|a + b| - 1] == a + b';
    }
  }

  lemma {:induction false} SomesCount<T>(os: seq<Option<T>>)
    ensures |Somes(os)| == SomeCount(os)
    decreases |os|
  {
    if os != [] {
      SomesCount(os[..|os| - 1]);
    }
  }

  lemma {:induction false} NoSomes<T>(os: seq<Option<T>>)
    requires forall i :: 0 <= i < |os| ==> os[i].None?
    ensures Somes(os) == []
    decreases |os|
  {
    if os != [] {
      NoSomes(os[..|os| - 1]);
    }
  }

  /** A property of every present value holds of every element of `Somes`. */
  lemma {:induction false} SomesAll<T>(os: seq<Option<T>>, p: T -> bool)
    requires forall i :: 0 <= i < |os| && os[i].Some? ==> p(os[i].value)
    ensures forall v :: v in Somes(os) ==> p(v)
    decreases |os|
  {
    if os != [] {
      SomesAll(os[..|os| - 1], p);
    }
  }

  /** The value of `os[j]` sits at the index counting the present elements
      before it. */
  lemma SomesOrder<T>(os: seq<Option<T>>, j: nat)
    requires j < |os| && os[j].Some?
    ensures SomeCount(os[..j]) < |Somes(os)|
    ensures Somes(os)[SomeCount(os[..j])] == os[j].value
  {
    SomesStep(os, j);
    SomesCount(os[..j]);
    SomesAppend(os[..j + 1], os[j + 1..]);
    assert os[..j + 1] + os[j + 1..] == os;
  }

  function Min(a: nat, b: nat): nat {
    if a <= b then a else b
  }

  /** The literal `w` (written in lower case) occurs at `i`, ignoring ASCII case. */
  predicate MatchesAt(s: string, i: nat, w: string) {
    i + |w| <= |s| && forall k :: 0 <= k < |w| ==> Lower(s[i + k]) == w[k]
  }

  /** The first index at or after `i` that holds `c`. */
  function IndexOf(s: string, c: char, i: nat): (r: Option<nat>)
    requires i <= |s|
    ensures r.None? ==> forall k :: i <= k < |s| ==> s[k] != c
    ensures r.Some? ==> i <= r.value < |s| && s[r.value] == c
    ensures r.Some? ==> forall k :: i <= k < r.value ==> s[k] != c
    decreases |s| - i
  {
    if i == |s| then None
    else if s[i] == c then Some(i)
    else IndexOf(s, c, i + 1)
  }

  /** No line break from `i` to the end: what `.` in `(.+)$` needs. */
  predicate NoNewlineFrom(s: string, i: nat)
    requires i <= |s|
  {
    forall k :: i <= k < |s| ==> s[k] != '\n'
  }

  /** Strings joined with single spaces: `' '.join(ws)`. */
  function JoinSpace(ws: seq<string>): string
  {
    if ws == [] then [] else if |ws| == 1 then ws[0] else ws[0] + " " + JoinSpace(ws[1..])
  }

  lemma StripIsStripped(s: string)
    ensures IsStripped(Strip(s))
  {
    var l := LStripBy(s, IsSpace);
    var r := RStripBy(l, IsSpace);
    if r != [] {
      assert r[0] == l[0];
    }
  }
}
