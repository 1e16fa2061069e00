/** The regular expressions `derive_qa` matches a sentence against, written
    as the searches Python's backtracking matcher performs: alternatives and
    optional groups in the order they are tried, greedy repeats longest
    first, lazy ones shortest first, and the first success wins.

    Each matcher takes a stripped sentence, which is what `derive_qa` passes
    (it calls `strip()` first). On such text `^\s*` matches nothing, and
    `(.+)$` matches a non-empty rest of the text with no line break. */
module Patterns {
  import opened PyStr

  predicate IsColonOrDash(c: char) {
    c == ':' || c == '-'
  }

  predicate IsSentenceEnd(c: char) {
    c == '.' || c == '!' || c == '?'
  }

  // ---------------------------------------------------------------------
  // `\s+(.+)$`

  /** `\s+(.+)$` matches from `i`, and the captured rest starts at `v`. The
      greedy `\s+` stops at the first non-space character. */
  predicate TailShape(s: string, i: nat, v: nat) {
    i < v < |s| && AllSpace(s, i, v) && !IsSpace(s[v]) && NoNewlineFrom(s, v)
  }

  lemma TailUnique(s: string, i: nat)
    requires i <= |s|
    ensures forall v :: TailShape(s, i, v) ==> v == SpanSpace(s, i)
  {
    forall v | TailShape(s, i, v) ensures v == SpanSpace(s, i) {
      SpanSpaceUnique(s, i, v);
    }
  }

  function TailFrom(s: string, i: nat): (r: Option<nat>)
    requires i <= |s|
    ensures r.Some? ==> TailShape(s, i, r.value)
    ensures r.None? ==> forall v :: !TailShape(s, i, v)
  {
    var u := SpanSpace(s, i);
    TailUnique(s, i);
    if i < u < |s| && NoNewlineFrom(s, u) then Some(u) else None
  }

  /** On stripped text a whitespace run followed by anything is followed by
      a non-space character before the end. */
  lemma TailOnStripped(s: string, i: nat)
    requires IsStripped(s) && i < |s| && IsSpace(s[i]) && NoNewlineFrom(s, 0)
    ensures TailFrom(s, i).Some?
  {
  }

  // ---------------------------------------------------------------------
  // `^\s*([^:\-]{2,80})\s*[:\-]\s+(.+)$`

  /** The first `:` or `-` at or after `i`, or `|s|` when there is none. */
  function SeparatorFrom(s: string, i: nat): (r: nat)
    requires i <= |s|
    ensures i <= r <= |s| && (r == |s| || IsColonOrDash(s[r]))
    ensures forall k :: i <= k < r ==> !IsColonOrDash(s[k])
    decreases |s| - i
  {
    if i == |s| || IsColonOrDash(s[i]) then i else SeparatorFrom(s, i + 1)
  }

  predicate NoSeparatorBefore(s: string, n: nat) {
    n <= |s| && forall k :: 0 <= k < n ==> !IsColonOrDash(s[k])
  }

  /** `([^:\-]{2,80})\s*[:\-]\s+(.+)$` matches `s` with group 1 `s[..n]`,
      the separator at `k` and group 2 starting at `v`. */
  predicate ColonShape(s: string, n: nat, k: nat, v: nat) {
    2 <= n <= 80 && NoSeparatorBefore(s, n) && n <= k < |s| && AllSpace(s, n, k)
    && IsColonOrDash(s[k]) && TailShape(s, k + 1, v)
  }

  /** Where a colon-rule match puts group 1's end, the separator and group 2. */
  datatype ColonCut = ColonCut(len: nat, sep: nat, rest: nat)

  /** The greedy `{2,80}` tries group lengths from `n` down to 2. */
  function ColonSearch(s: string, n: nat): (r: Option<ColonCut>)
    requires NoSeparatorBefore(s, n)
    ensures r.Some? ==> r.value.len <= n && r.value.rest <= |s|
    decreases n
  {
    if n < 2 then None
    else
      var k := SpanSpace(s, n);
      if k < |s| && IsColonOrDash(s[k]) then
        match TailFrom(s, k + 1)
        case Some(v) => Some(ColonCut(n, k, v))
        case None => ColonSearch(s, n - 1)
      else ColonSearch(s, n - 1)
  }

  /** No colon-rule match has a group 1 longer than `lo` and at most `hi`. */
  ghost predicate NoColonBetween(s: string, lo: nat, hi: nat) {
    forall m: nat, k: nat, v: nat :: lo < m <= hi ==> !ColonShape(s, m, k, v)
  }

  /** When the whitespace run after a group 1 of length `n` is not followed
      by a separator and a matching tail, no match has that group 1. */
  lemma NoColonAt(s: string, n: nat)
    requires NoSeparatorBefore(s, n)
    requires var k0 := SpanSpace(s, n);
      !(k0 < |s| && IsColonOrDash(s[k0]) && TailFrom(s, k0 + 1).Some?)
    ensures forall k: nat, v: nat :: !ColonShape(s, n, k, v)
  {
    forall k: nat, v: nat | ColonShape(s, n, k, v) ensures false {
      SpanSpaceUnique(s, n, k);
    }
  }

  /** What a greedy search from `n` down has found: the longest match
      with a group 1 of at most `n` characters, or that there is none. */
  ghost predicate ColonResult(s: string, n: nat, r: Option<ColonCut>) {
    match r
    case Some(f) => f.len <= n && ColonShape(s, f.len, f.sep, f.rest) && NoColonBetween(s, f.len, n)
    case None => NoColonBetween(s, 0, n)
  }

  /** A separator and a matching tail after a group 1 of length `n`: the
      search stops there. */
  lemma ColonSearchHere(s: string, n: nat)
    requires NoSeparatorBefore(s, n) && 2 <= n <= 80
    requires var k0 := SpanSpace(s, n);
      k0 < |s| && IsColonOrDash(s[k0]) && TailFrom(s, k0 + 1).Some?
    ensures ColonResult(s, n, ColonSearch(s, n))
  {
    var k0 := SpanSpace(s, n);
    var v := TailFrom(s, k0 + 1).value;
    assert ColonSearch(s, n) == Some(ColonCut(n, k0, v));
    assert TailShape(s, k0 + 1, v);
  }

  /** Otherwise the search goes on with one character less, and what it
      finds there is also the longest match up to `n`. */
  lemma ColonSearchLater(s: string, n: nat)
    requires NoSeparatorBefore(s, n) && 2 <= n <= 80
    requires var k0 := SpanSpace(s, n);
      !(k0 < |s| && IsColonOrDash(s[k0]) && TailFrom(s, k0 + 1).Some?)
    requires ColonResult(s, n - 1, ColonSearch(s, n - 1))
    ensures ColonResult(s, n, ColonSearch(s, n))
  {
    assert ColonSearch(s, n) == ColonSearch(s, n - 1);
    NoColonAt(s, n);
    ColonResultExtend(s, n, ColonSearch(s, n - 1));
  }

  lemma ColonResultExtend(s: string, n: nat, r: Option<ColonCut>)
    requires 0 < n && ColonResult(s, n - 1, r)
    requires forall k: nat, v: nat :: !ColonShape(s, n, k, v)
    ensures ColonResult(s, n, r)
  {
  }

  lemma {:induction false} ColonSearchSpec(s: string, n: nat)
    requires NoSeparatorBefore(s, n) && n <= 80
    ensures ColonResult(s, n, ColonSearch(s, n))
    decreases n
  {
    if n >= 2 {
      var k0 := SpanSpace(s, n);
      if k0 < |s| && IsColonOrDash(s[k0]) && TailFrom(s, k0 + 1).Some? {
        ColonSearchHere(s, n);
      } else {
        ColonSearchSpec(s, n - 1);
        ColonSearchLater(s, n);
      }
    } else {
      assert NoColonBetween(s, 0, n);
    }
  }

  /** The two groups of a colon-or-dash definition. */
  datatype ColonParts = ColonParts(term: string, rest: string)

  /** `rest` is captured as `(.+)$` captures it after `\s+`: not empty, no
      longer than `s`, starting with a non-space character and holding no
      line break. */
  predicate RestOf(s: string, rest: string) {
    rest != [] && |rest| <= |s| && !IsSpace(rest[0])
    && forall k :: 0 <= k < |rest| ==> rest[k] != '\n'
  }

  /** What every colon-rule match looks like: a term of 2 to 80 characters
      without `:` or `-`, and a rest as `(.+)$` captures it. */
  predicate ColonPartsOk(s: string, p: ColonParts) {
    2 <= |p.term| <= 80 && |p.term| <= |s|
    && (forall k :: 0 <= k < |p.term| ==> !IsColonOrDash(p.term[k]))
    && RestOf(s, p.rest)
  }

  lemma TailRest(s: string, i: nat, v: nat)
    requires TailShape(s, i, v)
    ensures RestOf(s, s[v..])
  {
  }

  lemma ColonCutOk(s: string, f: ColonCut)
    requires ColonShape(s, f.len, f.sep, f.rest)
    ensures ColonPartsOk(s, ColonParts(s[..f.len], s[f.rest..]))
  {
    TailRest(s, f.sep + 1, f.rest);
  }

  /** `re.match(r'^\s*([^:\-]{2,80})\s*[:\-]\s+(.+)$', s)`: groups 1 and 2. */
  function ColonMatch(s: string): (r: Option<ColonParts>)
    requires IsStripped(s)
    ensures r.Some? ==> ColonPartsOk(s, r.value)
  {
    var top := Min(80, SeparatorFrom(s, 0));
    ColonSearchSpec(s, top);
    match ColonSearch(s, top)
    case Some(f) => ColonCutOk(s, f); Some(ColonParts(s[..f.len], s[f.rest..]))
    case None => None
  }

  /** The colon rule matches exactly when the shape exists, and then group 1
      is the longest one possible. */
  lemma ColonMatchSpec(s: string)
    requires IsStripped(s)
    ensures ColonMatch(s).Some? ==>
      exists n: nat, k: nat, v: nat :: ColonShape(s, n, k, v)
        && ColonMatch(s).value == ColonParts(s[..n], s[v..])
        && forall m: nat, k': nat, v': nat :: n < m ==> !ColonShape(s, m, k', v')
    ensures ColonMatch(s).None? ==> forall n: nat, k: nat, v: nat :: !ColonShape(s, n, k, v)
  {
    var sep := SeparatorFrom(s, 0);
    var top := Min(80, sep);
    ColonSearchSpec(s, top);
    assert forall m: nat, k: nat, v: nat :: ColonShape(s, m, k, v) ==> m <= top;
    if ColonSearch(s, top).Some? {
      var f := ColonSearch(s, top).value;
      assert ColonShape(s, f.len, f.sep, f.rest)
        && ColonMatch(s).value == ColonParts(s[..f.len], s[f.rest..]);
    }
  }

  // ---------------------------------------------------------------------
  // `^\s*(?:In\s+[^,]+,\s*)?(?:The\s+|An\s+|A\s+)?([^.!?]{2,80}?)\s+<verb>\s+(.+)$`

  /** Where a subject-verb match was found: the subject is
      `s[start..start + len]`, the verb is alternative number `verb`, and the
      rest starts at `rest`. */
  datatype Found = Found(start: nat, len: nat, verb: nat, rest: nat)

  datatype Hit = Hit(verb: nat, rest: nat)

  /** `([^.!?]{2,80}?)` may capture `s[y..y + n]`. */
  predicate SubjectOk(s: string, y: nat, n: nat) {
    2 <= n <= 80 && y + n <= |s| && forall k :: y <= k < y + n ==> !IsSentenceEnd(s[k])
  }

  /** `\s+(verbs[j])\s+(.+)$` matches from `z`, with the rest starting at `v`. */
  predicate VerbShape(s: string, z: nat, verbs: seq<string>, j: nat, v: nat) {
    z <= |s| && j < |verbs|
    && (var w := SpanSpace(s, z);
        z < w && MatchesAt(s, w, verbs[j]) && TailShape(s, w + |verbs[j]|, v))
  }

  /** The subject `s[y..y + n]`, verb `j` and rest `v` make a match. */
  predicate SubjectVerbShape(s: string, y: nat, n: nat, verbs: seq<string>, j: nat, v: nat) {
    SubjectOk(s, y, n) && VerbShape(s, y + n, verbs, j, v)
  }

  /** The verb alternatives from number `j` on, tried in order at `w`. */
  function VerbAmong(s: string, w: nat, verbs: seq<string>, j: nat): (r: Option<Hit>)
    requires w <= |s|
    ensures r.Some? ==> j <= r.value.verb < |verbs| && r.value.rest <= |s|
    decreases |verbs| - j
  {
    if j >= |verbs| then None
    else if MatchesAt(s, w, verbs[j]) then
      match TailFrom(s, w + |verbs[j]|)
      case Some(v) => Some(Hit(j, v))
      case None => VerbAmong(s, w, verbs, j + 1)
    else VerbAmong(s, w, verbs, j + 1)
  }

  /** `\s+(verbs...)\s+(.+)$` from `z`. */
  function VerbAfter(s: string, z: nat, verbs: seq<string>): (r: Option<Hit>)
    requires z <= |s|
    ensures r.Some? ==> r.value.verb < |verbs| && r.value.rest <= |s|
  {
    var w := SpanSpace(s, z);
    if w == z then None else VerbAmong(s, w, verbs, 0)
  }

  lemma {:induction false} VerbAmongSpec(s: string, z: nat, verbs: seq<string>, j: nat)
    requires z <= |s| && z < SpanSpace(s, z)
    ensures var r := VerbAmong(s, SpanSpace(s, z), verbs, j);
      (r.Some? ==> VerbShape(s, z, verbs, r.value.verb, r.value.rest)
                   && forall j': nat, v: nat :: j <= j' < r.value.verb ==> !VerbShape(s, z, verbs, j', v))
      && (r.None? ==> forall j': nat, v: nat :: j <= j' ==> !VerbShape(s, z, verbs, j', v))
    decreases |verbs| - j
  {
    var w := SpanSpace(s, z);
    if j < |verbs| {
      VerbAmongSpec(s, z, verbs, j + 1);
      if MatchesAt(s, w, verbs[j]) {
        TailUnique(s, w + |verbs[j]|);
      }
    }
  }

  /** The verb alternatives are tried in order; the first one followed by
      whitespace and a rest wins. */
  lemma VerbAfterSpec(s: string, z: nat, verbs: seq<string>)
    requires z <= |s|
    ensures var r := VerbAfter(s, z, verbs);
      (r.Some? ==> VerbShape(s, z, verbs, r.value.verb, r.value.rest)
                   && forall j': nat, v: nat :: j' < r.value.verb ==> !VerbShape(s, z, verbs, j', v))
      && (r.None? ==> forall j': nat, v: nat :: !VerbShape(s, z, verbs, j', v))
  {
    if SpanSpace(s, z) != z {
      VerbAmongSpec(s, z, verbs, 0);
    }
  }

  /** The lazy `{2,80}?` tries subject lengths from `n` up to 80. */
  function LazySubject(s: string, y: nat, n: nat, verbs: seq<string>): (r: Option<Found>)
    requires 2 <= n && y + n - 1 <= |s|
    requires forall k :: y <= k < y + n - 1 ==> !IsSentenceEnd(s[k])
    ensures r.Some? ==> r.value.start == y && r.value.start + r.value.len <= |s|
                        && r.value.verb < |verbs| && r.value.rest <= |s|
    decreases 81 - n
  {
    if n > 80 || y + n > |s| || IsSentenceEnd(s[y + n - 1]) then None
    else
      match VerbAfter(s, y + n, verbs)
      case Some(h) => Some(Found(y, n, h.verb, h.rest))
      case None => LazySubject(s, y, n + 1, verbs)
  }

  /** `f` is what the lazy subject search from length `n` must find: a
      match with a subject of at least `n` characters, no shorter subject
      from `n` on that matches, and no earlier verb after the subject. */
  ghost predicate FirstSubjectFrom(s: string, y: nat, n: nat, verbs: seq<string>, f: Found) {
    n <= f.len && SubjectVerbShape(s, y, f.len, verbs, f.verb, f.rest)
    && (var z := y + f.len; forall j: nat, v: nat :: j < f.verb ==> !VerbShape(s, z, verbs, j, v))
    && forall m: nat, j: nat, v: nat :: n <= m < f.len ==> !SubjectVerbShape(s, y, m, verbs, j, v)
  }

  lemma {:induction false} LazySubjectFound(s: string, y: nat, n: nat, verbs: seq<string>)
    requires 2 <= n && y + n - 1 <= |s|
    requires forall k :: y <= k < y + n - 1 ==> !IsSentenceEnd(s[k])
    requires LazySubject(s, y, n, verbs).Some?
    ensures FirstSubjectFrom(s, y, n, verbs, LazySubject(s, y, n, verbs).value)
    decreases 81 - n
  {
    assert n <= 80 && y + n <= |s| && !IsSentenceEnd(s[y + n - 1]);
    if VerbAfter(s, y + n, verbs).Some? {
      LazySubjectHere(s, y, n, verbs);
    } else {
      assert LazySubject(s, y, n, verbs) == LazySubject(s, y, n + 1, verbs);
      LazySubjectFound(s, y, n + 1, verbs);
      LazySubjectLater(s, y, n, verbs, LazySubject(s, y, n, verbs).value);
    }
  }

  /** The subject of length `n` is followed by a verb: it is the match. */
  lemma LazySubjectHere(s: string, y: nat, n: nat, verbs: seq<string>)
    requires 2 <= n <= 80 && y + n <= |s|
    requires forall k :: y <= k < y + n ==> !IsSentenceEnd(s[k])
    requires VerbAfter(s, y + n, verbs).Some?
    ensures var h := VerbAfter(s, y + n, verbs).value;
      FirstSubjectFrom(s, y, n, verbs, Found(y, n, h.verb, h.rest))
  {
    assert SubjectOk(s, y, n);
    VerbAfterSpec(s, y + n, verbs);
  }

  /** No verb follows the subject of length `n`, so whatever the search
      finds from `n + 1` is also the first from `n`. */
  lemma LazySubjectLater(s: string, y: nat, n: nat, verbs: seq<string>, f: Found)
    requires y + n <= |s|
    requires VerbAfter(s, y + n, verbs).None?
    requires FirstSubjectFrom(s, y, n + 1, verbs, f)
    ensures FirstSubjectFrom(s, y, n, verbs, f)
  {
    VerbAfterSpec(s, y + n, verbs);
    assert forall j: nat, v: nat :: !SubjectVerbShape(s, y, n, verbs, j, v);
  }

  lemma {:induction false} LazySubjectNone(s: string, y: nat, n: nat, verbs: seq<string>)
    requires 2 <= n && y + n - 1 <= |s|
    requires forall k :: y <= k < y + n - 1 ==> !IsSentenceEnd(s[k])
    requires LazySubject(s, y, n, verbs).None?
    ensures forall m: nat, j: nat, v: nat :: n <= m ==> !SubjectVerbShape(s, y, m, verbs, j, v)
    decreases 81 - n
  {
    if n > 80 || y + n > |s| || IsSentenceEnd(s[y + n - 1]) {
      assert forall m: nat :: n <= m ==> !SubjectOk(s, y, m);
    } else {
      VerbAfterSpec(s, y + n, verbs);
      LazySubjectNone(s, y, n + 1, verbs);
      assert forall j: nat, v: nat :: !SubjectVerbShape(s, y, n, verbs, j, v);
    }
  }

  /** The subject starting at `y`, for each length the lazy group tries. */
  function SubjectAt(s: string, y: nat, verbs: seq<string>): (r: Option<Found>)
    requires y <= |s|
    ensures r.Some? ==> r.value.start == y && r.value.start + r.value.len <= |s|
                        && r.value.verb < |verbs| && r.value.rest <= |s|
  {
    if y < |s| && !IsSentenceEnd(s[y]) then LazySubject(s, y, 2, verbs) else None
  }

  /** From start `y` the match is the SHORTEST subject followed by a verb
      and a rest, with the first verb that fits. */
  lemma SubjectAtSpec(s: string, y: nat, verbs: seq<string>)
    requires y <= |s|
    ensures var r := SubjectAt(s, y, verbs);
      (r.Some? ==> FirstSubjectFrom(s, y, 0, verbs, r.value))
      && (r.None? ==> forall m: nat, j: nat, v: nat :: !SubjectVerbShape(s, y, m, verbs, j, v))
  {
    if y < |s| && !IsSentenceEnd(s[y]) {
      if LazySubject(s, y, 2, verbs).Some? {
        var f := LazySubject(s, y, 2, verbs).value;
        LazySubjectFound(s, y, 2, verbs);
        assert forall m: nat :: m < 2 ==> !SubjectOk(s, y, m);
      } else {
        LazySubjectNone(s, y, 2, verbs);
        assert forall m: nat :: m < 2 ==> !SubjectOk(s, y, m);
      }
    } else {
      assert forall m: nat :: !SubjectOk(s, y, m);
    }
  }

  predicate StartsWithin(s: string, starts: seq<nat>) {
    forall i :: 0 <= i < |starts| ==> starts[i] <= |s|
  }

  /** The candidate subject starts, in the order the optional prefixes make
      the matcher try them; the first one that leads to a match wins. */
  function SearchStarts(s: string, starts: seq<nat>, verbs: seq<string>): (r: Option<Found>)
    requires StartsWithin(s, starts)
    ensures r.Some? ==> r.value.start + r.value.len <= |s| && r.value.verb < |verbs|
                        && r.value.rest <= |s|
  {
    if starts == [] then None
    else
      match SubjectAt(s, starts[0], verbs)
      case Some(f) => Some(f)
      case None => SearchStarts(s, starts[1..], verbs)
  }

  lemma {:induction false} SearchStartsSpec(s: string, starts: seq<nat>, verbs: seq<string>)
    requires StartsWithin(s, starts)
    ensures var r := SearchStarts(s, starts, verbs);
      (r.Some? ==>
         exists i :: (0 <= i < |starts| && starts[i] == r.value.start
           && SubjectAt(s, starts[i], verbs) == r
           && forall i' :: 0 <= i' < i ==> SubjectAt(s, starts[i'], verbs).None?))
      && (r.None? ==> forall i :: 0 <= i < |starts| ==> SubjectAt(s, starts[i], verbs).None?)
  {
    if starts != [] {
      SearchStartsSpec(s, starts[1..], verbs);
      var r := SearchStarts(s, starts, verbs);
      if SubjectAt(s, starts[0], verbs).None? {
        if r.Some? {
          var i :| 0 <= i < |starts[1..]| && starts[1..][i] == r.value.start
            && SubjectAt(s, starts[1..][i], verbs) == r
            && forall i' :: 0 <= i' < i ==> SubjectAt(s, starts[1..][i'], verbs).None?;
          assert starts[i + 1] == r.value.start && SubjectAt(s, starts[i + 1], verbs) == r;
          forall i' | 0 <= i' < i + 1 ensures SubjectAt(s, starts[i'], verbs).None? {
            if i' > 0 { assert starts[i'] == starts[1..][i' - 1]; }
          }
        } else {
          forall i | 0 <= i < |starts| ensures SubjectAt(s, starts[i], verbs).None? {
            if i > 0 { assert starts[i] == starts[1..][i - 1]; }
          }
        }
      }
    }
  }

  /** `[hi, hi - 1, ..., lo]`: the ends a greedy repeat gives back one at a time. */
  function Descending(hi: nat, lo: nat): (r: seq<nat>)
    ensures forall i :: 0 <= i < |r| ==> lo <= r[i] <= hi
    decreases hi
  {
    if hi < lo then [] else if hi == lo then [hi] else [hi] + Descending(hi - 1, lo)
  }

  /** Where the subject may start after `(?:The\s+|An\s+|A\s+)?` at `x`: each
      article with each length of its whitespace run, longest first, and last
      the empty alternative. */
  function ArticleStarts(s: string, x: nat): (r: seq<nat>)
    requires x <= |s|
    ensures StartsWithin(s, r)
    ensures |r| > 0 && r[|r| - 1] == x
  {
    ArticleAt(s, x, "the") + ArticleAt(s, x, "an") + ArticleAt(s, x, "a") + [x]
  }

  /** The subject starts after the article `w` at `x` and one or more
      whitespace characters, longest run first; none when `w\s+` does not
      match at `x`. */
  function ArticleAt(s: string, x: nat, w: string): (r: seq<nat>)
    requires x <= |s|
    ensures StartsWithin(s, r)
  {
    if MatchesAt(s, x, w) && x + |w| < |s| && IsSpace(s[x + |w|])
    then Descending(SpanSpace(s, x + |w|), x + |w| + 1) else []
  }

  /** Where `(?:In\s+[^,]+,\s*)` can end at the start of `s`: `[^,]+` runs up
      to the first comma, and `\s*` gives back its whitespace one character
      at a time. */
  function InClauseEnds(s: string): (r: seq<nat>)
    ensures StartsWithin(s, r)
  {
    if MatchesAt(s, 0, "in") && 2 < |s| && IsSpace(s[2]) then
      match IndexOf(s, ',', 3)
      case Some(c) => if c >= 4 then Descending(SpanSpace(s, c + 1), c + 1) else []
      case None => []
    else []
  }

  function StartsAfter(s: string, xs: seq<nat>): (r: seq<nat>)
    requires StartsWithin(s, xs)
    ensures StartsWithin(s, r)
  {
    if xs == [] then [] else ArticleStarts(s, xs[0]) + StartsAfter(s, xs[1..])
  }

  /** The subject starts of the `is` and `are` rules: after an In-clause if
      there is one, then without it. */
  function CopulaStarts(s: string): (r: seq<nat>)
    ensures StartsWithin(s, r)
  {
    StartsAfter(s, InClauseEnds(s)) + ArticleStarts(s, 0)
  }

  /** The three groups of a subject-verb rule; `verb` is the lower-cased
      alternative that matched. */
  datatype SubjectVerb = SubjectVerb(subject: string, verb: string, rest: string)

  function Groups(s: string, f: Found, verbs: seq<string>): SubjectVerb
    requires f.start + f.len <= |s| && f.verb < |verbs| && f.rest <= |s|
  {
    SubjectVerb(s[f.start..f.start + f.len], verbs[f.verb], s[f.rest..])
  }

  /** What every subject-verb match looks like: a subject of 2 to 80
      characters without `.`, `!` or `?`, and a rest as `(.+)$` captures it. */
  predicate GroupsOk(s: string, g: SubjectVerb) {
    2 <= |g.subject| <= 80 && (forall k :: 0 <= k < |g.subject| ==> !IsSentenceEnd(g.subject[k]))
    && RestOf(s, g.rest)
  }

  lemma GroupsShape(s: string, f: Found, verbs: seq<string>)
    requires SubjectVerbShape(s, f.start, f.len, verbs, f.verb, f.rest)
    ensures f.verb < |verbs| && GroupsOk(s, Groups(s, f, verbs))
  {
    var w := SpanSpace(s, f.start + f.len);
    TailRest(s, w + |verbs[f.verb]|, f.rest);
    var g := Groups(s, f, verbs);
    assert forall k :: 0 <= k < |g.subject| ==> g.subject[k] == s[f.start + k];
  }

  /** When the search succeeds, what it found is a match. */
  lemma SearchStartsMatch(s: string, starts: seq<nat>, verbs: seq<string>)
    requires StartsWithin(s, starts)
    ensures var r := SearchStarts(s, starts, verbs);
      r.Some? ==> SubjectVerbShape(s, r.value.start, r.value.len, verbs, r.value.verb, r.value.rest)
  {
    if SearchStarts(s, starts, verbs).Some? {
      SearchStartsShape(s, starts, verbs);
    }
  }

  /** `re.match(r'^\s*(?:In\s+[^,]+,\s*)?(?:The\s+|An\s+|A\s+)?([^.!?]{2,80}?)\s+<verb>\s+(.+)$',
      s, flags=re.I)` for `<verb>` `is` or `are`. */
  function CopulaMatch(s: string, verb: string): (r: Option<SubjectVerb>)
    requires IsStripped(s)
    ensures r.Some? ==> GroupsOk(s, r.value) && r.value.verb == verb
  {
    SearchStartsMatch(s, CopulaStarts(s), [verb]);
    match SearchStarts(s, CopulaStarts(s), [verb])
    case Some(f) => GroupsShape(s, f, [verb]); Some(Groups(s, f, [verb]))
    case None => None
  }

  /** The alternatives of `(means|refers to|stands for|is defined as)`. */
  const DefiningVerbs: seq<string> := ["means", "refers to", "stands for", "is defined as"]

  /** `re.match(r'^\s*(?:The\s+|An\s+|A\s+)?([^.!?]{2,80}?)\s+(means|refers to|stands for|is defined as)\s+(.+)$',
      s, flags=re.I)`, with group 2 lower-cased. */
  function DefinitionMatch(s: string): (r: Option<SubjectVerb>)
    requires IsStripped(s)
    ensures r.Some? ==> GroupsOk(s, r.value) && r.value.verb in DefiningVerbs
  {
    SearchStartsMatch(s, ArticleStarts(s, 0), DefiningVerbs);
    match SearchStarts(s, ArticleStarts(s, 0), DefiningVerbs)
    case Some(f) => GroupsShape(s, f, DefiningVerbs); Some(Groups(s, f, DefiningVerbs))
    case None => None
  }

  /** Where `SearchStarts` finds its match, in terms of the shapes: the
      first candidate start from which anything matches, from it the
      shortest subject, and after that subject the first verb that fits. */
  lemma SearchStartsShape(s: string, starts: seq<nat>, verbs: seq<string>)
    requires StartsWithin(s, starts)
    requires SearchStarts(s, starts, verbs).Some?
    ensures var f := SearchStarts(s, starts, verbs).value;
      FirstSubjectFrom(s, f.start, 0, verbs, f)
      && exists i :: 0 <= i < |starts| && starts[i] == f.start
           && forall i', m: nat, j: nat, v: nat :: 0 <= i' < i ==>
                !SubjectVerbShape(s, starts[i'], m, verbs, j, v)
  {
    SearchStartsSpec(s, starts, verbs);
    var r := SearchStarts(s, starts, verbs);
    var i :| 0 <= i < |starts| && starts[i] == r.value.start
      && SubjectAt(s, starts[i], verbs) == r
      && forall i' :: 0 <= i' < i ==> SubjectAt(s, starts[i'], verbs).None?;
    SubjectAtSpec(s, starts[i], verbs);
    forall i' | 0 <= i' < i
      ensures forall m: nat, j: nat, v: nat :: !SubjectVerbShape(s, starts[i'], m, verbs, j, v)
    {
      SubjectAtSpec(s, starts[i'], verbs);
    }
  }

  /** The search fails only when no candidate start has any match. */
  lemma SearchStartsNone(s: string, starts: seq<nat>, verbs: seq<string>)
    requires StartsWithin(s, starts)
    requires SearchStarts(s, starts, verbs).None?
    ensures forall i, m: nat, j: nat, v: nat :: 0 <= i < |starts| ==>
              !SubjectVerbShape(s, starts[i], m, verbs, j, v)
  {
    SearchStartsSpec(s, starts, verbs);
    forall i | 0 <= i < |starts|
      ensures forall m: nat, j: nat, v: nat :: !SubjectVerbShape(s, starts[i], m, verbs, j, v)
    {
      SubjectAtSpec(s, starts[i], verbs);
    }
  }

  /** A match anywhere among the candidates means the search finds one. */
  lemma SearchFinds(s: string, starts: seq<nat>, verbs: seq<string>, i: nat, n: nat, j: nat, v: nat)
    requires StartsWithin(s, starts) && i < |starts|
    requires SubjectVerbShape(s, starts[i], n, verbs, j, v)
    ensures SearchStarts(s, starts, verbs).Some?
  {
    if SearchStarts(s, starts, verbs).None? {
      SearchStartsNone(s, starts, verbs);
    }
  }

  /** The `is` and `are` rules match exactly when some candidate start has a
      subject of 2 to 80 characters without `.`, `!` or `?`, then
      whitespace, the verb, whitespace and a rest without a line break. */
  lemma CopulaMatchSpec(s: string, verb: string)
    requires IsStripped(s)
    ensures var starts := CopulaStarts(s);
      CopulaMatch(s, verb).Some? <==>
        exists i, n: nat, v: nat :: 0 <= i < |starts| && SubjectVerbShape(s, starts[i], n, [verb], 0, v)
  {
    var starts := CopulaStarts(s);
    var r := SearchStarts(s, starts, [verb]);
    if r.None? {
      SearchStartsNone(s, starts, [verb]);
    } else {
      SearchStartsShape(s, starts, [verb]);
      var f := r.value;
      var i :| 0 <= i < |starts| && starts[i] == f.start;
      assert f.verb == 0;
      assert SubjectVerbShape(s, starts[i], f.len, [verb], 0, f.rest);
    }
  }

  /** The defining rule matches exactly when a start after an optional
      article has a subject followed by one of the four verbs and a rest. */
  lemma DefinitionMatchSpec(s: string)
    requires IsStripped(s)
    ensures var starts := ArticleStarts(s, 0);
      DefinitionMatch(s).Some? <==>
        exists i, n: nat, j: nat, v: nat :: 0 <= i < |starts|
          && SubjectVerbShape(s, starts[i], n, DefiningVerbs, j, v)
  {
    var starts := ArticleStarts(s, 0);
    var r := SearchStarts(s, starts, DefiningVerbs);
    if r.None? {
      SearchStartsNone(s, starts, DefiningVerbs);
    } else {
      SearchStartsShape(s, starts, DefiningVerbs);
      var f := r.value;
      var i :| 0 <= i < |starts| && starts[i] == f.start;
      assert SubjectVerbShape(s, starts[i], f.len, DefiningVerbs, f.verb, f.rest);
    }
  }

  /** Where `is defined as` follows a subject, so does `is`. */
  lemma DefinedAsGivesIs(s: string, y: nat, n: nat, v: nat)
    requires IsStripped(s) && NoNewlineFrom(s, 0)
    requires SubjectVerbShape(s, y, n, DefiningVerbs, 3, v)
    ensures exists u: nat :: SubjectVerbShape(s, y, n, ["is"], 0, u)
  {
    var w := SpanSpace(s, y + n);
    var d := "is defined as";
    assert MatchesAt(s, w, d);
    assert d[0] == 'i' && d[1] == 's' && d[2] == ' ';
    assert Lower(s[w]) == d[0] && Lower(s[w + 1]) == d[1] && Lower(s[w + 2]) == d[2];
    assert MatchesAt(s, w, "is");
    TailOnStripped(s, w + 2);
    var u := TailFrom(s, w + 2).value;
    assert SubjectVerbShape(s, y, n, ["is"], 0, u);
  }

  /** Every start of the defining rule is also a start of the `is` rule. */
  lemma ArticleStartInCopula(s: string, i: nat)
    requires i < |ArticleStarts(s, 0)|
    ensures exists i' :: 0 <= i' < |CopulaStarts(s)| && CopulaStarts(s)[i'] == ArticleStarts(s, 0)[i]
  {
    var pre := StartsAfter(s, InClauseEnds(s));
    IndexInSuffix(pre, ArticleStarts(s, 0), i);
    assert CopulaStarts(s)[|pre| + i] == ArticleStarts(s, 0)[i];
  }

  lemma IndexInSuffix(pre: seq<nat>, a: seq<nat>, i: nat)
    requires i < |a|
    ensures |pre| + i < |pre + a| && (pre + a)[|pre| + i] == a[i]
  {
  }

  /** On text without a line break, the `is defined as` alternative of the
      defining rule is never reached: wherever it would match, the earlier
      `is` rule already matches. */
  lemma IsDefinedAsShadowed(s: string)
    requires IsStripped(s) && NoNewlineFrom(s, 0)
    requires DefinitionMatch(s).Some? && DefinitionMatch(s).value.verb == "is defined as"
    ensures CopulaMatch(s, "is").Some?
  {
    var f := SearchStarts(s, ArticleStarts(s, 0), DefiningVerbs).value;
    DefinedAsIndex(f.verb);
    DefinedAsSearch(s);
  }

  /** `is defined as` is the fourth defining verb and no other. */
  lemma DefinedAsIndex(k: nat)
    requires k < |DefiningVerbs| && DefiningVerbs[k] == "is defined as"
    ensures k == 3
  {
  }

  /** The searches behind `IsDefinedAsShadowed`. */
  lemma DefinedAsSearch(s: string)
    requires IsStripped(s) && NoNewlineFrom(s, 0)
    requires var r := SearchStarts(s, ArticleStarts(s, 0), DefiningVerbs); r.Some? && r.value.verb == 3
    ensures SearchStarts(s, CopulaStarts(s), ["is"]).Some?
  {
    var starts := ArticleStarts(s, 0);
    var f := SearchStarts(s, starts, DefiningVerbs).value;
    SearchStartsShape(s, starts, DefiningVerbs);
    var i :| 0 <= i < |starts| && starts[i] == f.start;
    DefinedAsGivesIs(s, f.start, f.len, f.rest);
    var u: nat :| SubjectVerbShape(s, f.start, f.len, ["is"], 0, u);
    ArticleStartInCopula(s, i);
    var cs := CopulaStarts(s);
    var i' :| 0 <= i' < |cs| && cs[i'] == f.start;
    SearchFinds(s, cs, ["is"], i', f.len, 0, u);
  }
}
