/** The two scanners `_fallback_flashcards` uses besides `re.match`:
    `re.split(r'[.!?]\s+', text)` into sentences, and
    `re.findall(r"[A-Za-z0-9]+(?:'[A-Za-z0-9]+)?", s)` for the topic words. */
module Tokens {
  import opened PyStr
  import opened Patterns

  // ---------------------------------------------------------------------
  // Sentences

  /** `[.!?]\s+` matches at `i`. */
  predicate BreakAt(t: string, i: nat) {
    i + 1 < |t| && IsSentenceEnd(t[i]) && IsSpace(t[i + 1])
  }

  predicate NoBreak(t: string) {
    forall i :: 0 <= i < |t| ==> !BreakAt(t, i)
  }

  /** The text of one separator: an end mark and a whitespace run. */
  predicate IsSeparator(sep: string) {
    2 <= |sep| && IsSentenceEnd(sep[0]) && AllSpace(sep, 1, |sep|)
  }

  /** `re.split` from the piece that began at `start`, with the scan at `i`.
      A separator match takes the whole whitespace run, and the scan goes
      on after it. */
  function SplitFrom(t: string, start: nat, i: nat): (r: seq<string>)
    requires start <= i <= |t|
    ensures |r| >= 1
    decreases |t| - i
  {
    if i == |t| then [t[start..]]
    else if BreakAt(t, i) then
      var e := SpanSpace(t, i + 1);
      [t[start..i]] + SplitFrom(t, e, e)
    else SplitFrom(t, start, i + 1)
  }

  /** `re.split(r'[.!?]\s+', t)`. */
  function SplitSentences(t: string): (r: seq<string>)
    ensures |r| >= 1
    ensures forall p :: p in r ==> NoBreak(p)
    ensures LaterPiecesStart(r)
  {
    SplitFromNoBreak(t, 0, 0);
    SplitFromStarts(t, 0, 0);
    SplitFrom(t, 0, 0)
  }

  /** The pieces with the separators put back between them. */
  function Interleave(ps: seq<string>, seps: seq<string>): string
    requires |ps| == |seps| + 1
  {
    if |ps| == 1 then ps[0] else ps[0] + seps[0] + Interleave(ps[1..], seps[1..])
  }

  lemma NoBreakSlice(t: string, a: nat, b: nat)
    requires a <= b <= |t|
    requires forall k :: a <= k < b ==> !BreakAt(t, k)
    ensures NoBreak(t[a..b])
  {
    forall i | 0 <= i < b - a ensures !BreakAt(t[a..b], i) {
      assert !BreakAt(t, a + i);
    }
  }

  lemma {:induction false} SplitFromNoBreak(t: string, start: nat, i: nat)
    requires start <= i <= |t|
    requires forall k :: start <= k < i ==> !BreakAt(t, k)
    ensures forall p :: p in SplitFrom(t, start, i) ==> NoBreak(p)
    decreases |t| - i
  {
    if i == |t| {
      NoBreakSlice(t, start, i);
      assert t[start..] == t[start..i];
      assert SplitFrom(t, start, i) == [t[start..]];
    } else if BreakAt(t, i) {
      var e := SpanSpace(t, i + 1);
      NoBreakSlice(t, start, i);
      SplitFromNoBreak(t, e, e);
    } else {
      SplitFromNoBreak(t, start, i + 1);
    }
  }

  /** Every piece after the first is empty or starts with a non-space. */
  predicate LaterPiecesStart(ps: seq<string>) {
    forall k :: 1 <= k < |ps| ==> ps[k] == [] || !IsSpace(ps[k][0])
  }

  /** Every piece after the first starts where a whitespace run ended. */
  lemma {:induction false} SplitFromStarts(t: string, start: nat, i: nat)
    requires start <= i <= |t|
    ensures LaterPiecesStart(SplitFrom(t, start, i))
    decreases |t| - i
  {
    if i < |t| && BreakAt(t, i) {
      var e := SpanSpace(t, i + 1);
      SplitFromStarts(t, e, e);
      SplitFirstPiece(t, e, e);
      var rest := SplitFrom(t, e, e);
      var ps := SplitFrom(t, start, i);
      assert ps == [t[start..i]] + rest;
      forall k | 1 <= k < |ps| ensures ps[k] == [] || !IsSpace(ps[k][0]) {
        assert ps[k] == rest[k - 1];
      }
    } else if i < |t| {
      assert SplitFrom(t, start, i) == SplitFrom(t, start, i + 1);
      SplitFromStarts(t, start, i + 1);
    }
  }

  /** Some separators put between the pieces give `t`. */
  ghost predicate Reassembles(ps: seq<string>, t: string) {
    exists seps :: |seps| == |ps| - 1
      && (forall k :: 0 <= k < |seps| ==> IsSeparator(seps[k]))
      && Interleave(ps, seps) == t
  }

  lemma ReassembleCons(p: string, sep: string, rest: seq<string>, tail: string)
    requires IsSeparator(sep) && Reassembles(rest, tail) && |rest| >= 1
    ensures Reassembles([p] + rest, p + sep + tail)
  {
    var seps' :| |seps'| == |rest| - 1
      && (forall k :: 0 <= k < |seps'| ==> IsSeparator(seps'[k]))
      && Interleave(rest, seps') == tail;
    var ps := [p] + rest;
    var seps := [sep] + seps';
    assert ps[0] == p && ps[1..] == rest;
    assert seps[0] == sep && seps[1..] == seps';
    assert Interleave(ps, seps) == p + sep + tail;
  }

  /** The end mark at a break and the whitespace run after it form a separator. */
  lemma BreakSeparator(t: string, i: nat, e: nat)
    requires BreakAt(t, i) && i + 1 <= e <= |t| && AllSpace(t, i + 1, e) && i + 1 < e
    ensures IsSeparator(t[i..e])
  {
    var sep := t[i..e];
    assert forall k :: 1 <= k < |sep| ==> sep[k] == t[i + k];
  }

  lemma SliceThree(t: string, a: nat, b: nat, c: nat)
    requires a <= b <= c <= |t|
    ensures t[a..] == t[a..b] + t[b..c] + t[c..]
  {
  }

  lemma {:induction false} SplitFromReassemble(t: string, start: nat, i: nat)
    requires start <= i <= |t|
    ensures Reassembles(SplitFrom(t, start, i), t[start..])
    decreases |t| - i
  {
    var ps := SplitFrom(t, start, i);
    if i == |t| {
      assert Interleave(ps, []) == t[start..];
    } else if BreakAt(t, i) {
      var e := SpanSpace(t, i + 1);
      SplitFromReassemble(t, e, e);
      BreakSeparator(t, i, e);
      ReassembleCons(t[start..i], t[i..e], SplitFrom(t, e, e), t[e..]);
      SliceThree(t, start, i, e);
    } else {
      SplitFromReassemble(t, start, i + 1);
    }
  }

  /** The first piece from `start` is a prefix of `t[start..]`. */
  lemma {:induction false} SplitFirstPiece(t: string, start: nat, i: nat)
    requires start <= i <= |t|
    ensures var p := SplitFrom(t, start, i)[0];
      start + |p| <= |t| && p == t[start..start + |p|]
    decreases |t| - i
  {
    if i < |t| && !BreakAt(t, i) {
      SplitFirstPiece(t, start, i + 1);
    }
  }

  /** The separators between the pieces are end marks with their whole
      whitespace runs, and putting them back gives the text again. */
  lemma SplitSentencesSpec(t: string)
    ensures var ps := SplitSentences(t);
      exists seps :: |seps| == |ps| - 1
        && (forall k :: 0 <= k < |seps| ==> IsSeparator(seps[k]))
        && Interleave(ps, seps) == t
  {
    SplitFromReassemble(t, 0, 0);
    assert t[0..] == t;
  }

  /** No piece is longer than the text. */
  lemma {:induction false} InterleaveLength(ps: seq<string>, seps: seq<string>, k: nat)
    requires |ps| == |seps| + 1 && k < |ps|
    ensures |ps[k]| <= |Interleave(ps, seps)|
    decreases |ps|
  {
    if k > 0 {
      InterleaveLength(ps[1..], seps[1..], k - 1);
    }
  }

  lemma SplitPieceLength(t: string)
    ensures forall p :: p in SplitSentences(t) ==> |p| <= |t|
  {
    var ps := SplitSentences(t);
    SplitSentencesSpec(t);
    var seps :| |seps| == |ps| - 1 && Interleave(ps, seps) == t;
    forall p | p in ps ensures |p| <= |t| {
      var k :| 0 <= k < |ps| && ps[k] == p;
      InterleaveLength(ps, seps, k);
    }
  }

  // ---------------------------------------------------------------------
  // Words

  /** Where the run of ASCII letters and digits from `i` ends. */
  function AlnumRun(s: string, i: nat): (r: nat)
    requires i <= |s|
    ensures i <= r <= |s| && (r == |s| || !IsAsciiAlnum(s[r]))
    ensures forall k :: i <= k < r ==> IsAsciiAlnum(s[k])
    decreases |s| - i
  {
    if i < |s| && IsAsciiAlnum(s[i]) then AlnumRun(s, i + 1) else i
  }

  /** A word of the pattern: letters and digits, with at most one apostrophe
      that has letters or digits on both sides. */
  predicate IsWord(w: string) {
    w != [] && IsAsciiAlnum(w[0]) && IsAsciiAlnum(w[|w| - 1])
    && (forall k :: 0 <= k < |w| ==> IsAsciiAlnum(w[k]) || w[k] == '\'')
    && forall k, k' :: 0 <= k < k' < |w| && w[k] == '\'' ==> w[k'] != '\''
  }

  /** The half-open index range `[start, end)` of one word match. */
  datatype Cut = Cut(start: nat, end: nat)

  predicate NoApostrophe(s: string, a: nat, b: nat)
    requires a <= b <= |s|
  {
    forall k :: a <= k < b ==> s[k] != '\''
  }

  /** `c` is a match of `[A-Za-z0-9]+(?:'[A-Za-z0-9]+)?` at `c.start` that the
      greedy repeats cannot make longer: the letters and digits run on as far
      as they go, and the optional `'` part is taken whenever it can be. */
  predicate IsWordMatch(s: string, c: Cut) {
    c.start < c.end <= |s| && IsWord(s[c.start..c.end])
    && (c.end == |s| || !IsAsciiAlnum(s[c.end]))
    && (NoApostrophe(s, c.start, c.end) ==>
          !(c.end + 1 < |s| && s[c.end] == '\'' && IsAsciiAlnum(s[c.end + 1])))
  }

  /** A plain run of letters and digits is a word without an apostrophe. */
  lemma AlnumWord(s: string, i: nat, j: nat)
    requires i < j <= |s| && forall k :: i <= k < j ==> IsAsciiAlnum(s[k])
    ensures IsWord(s[i..j]) && NoApostrophe(s, i, j)
  {
    var w := s[i..j];
    assert forall k :: 0 <= k < |w| ==> w[k] == s[i + k];
  }

  /** Two runs of letters and digits joined by one apostrophe form a word. */
  lemma ApostropheWord(s: string, i: nat, j: nat, e: nat)
    requires i < j && j + 1 < e <= |s| && s[j] == '\''
    requires forall k :: i <= k < j ==> IsAsciiAlnum(s[k])
    requires forall k :: j + 1 <= k < e ==> IsAsciiAlnum(s[k])
    ensures IsWord(s[i..e])
  {
    var w := s[i..e];
    assert forall k :: 0 <= k < |w| ==> w[k] == s[i + k];
    forall k, k' | 0 <= k < k' < |w| && w[k] == '\'' ensures w[k'] != '\'' {
      assert i + k == j;
      assert IsAsciiAlnum(s[i + k']);
    }
  }

  /** Where the word that starts at the letter or digit `i` ends. */
  function WordEnd(s: string, i: nat): (r: nat)
    requires i < |s| && IsAsciiAlnum(s[i])
    ensures IsWordMatch(s, Cut(i, r))
  {
    var j := AlnumRun(s, i);
    AlnumWord(s, i, j);
    if j + 1 < |s| && s[j] == '\'' && IsAsciiAlnum(s[j + 1]) then
      var e := AlnumRun(s, j + 1);
      ApostropheWord(s, i, j, e);
      e
    else j
  }

  /** The matches of `re.findall(r"[A-Za-z0-9]+(?:'[A-Za-z0-9]+)?", s)` from
      `i` on, left to right: every one is a greedy match and they do not
      overlap. */
  function WordCuts(s: string, i: nat): (r: seq<Cut>)
    requires i <= |s|
    ensures forall k :: 0 <= k < |r| ==> IsWordMatch(s, r[k]) && i <= r[k].start
    ensures forall k :: 0 <= k < |r| - 1 ==> r[k].end < r[k + 1].start
    decreases |s| - i
  {
    if i == |s| then []
    else if IsAsciiAlnum(s[i]) then
      var e := WordEnd(s, i);
      [Cut(i, e)] + WordCuts(s, e)
    else WordCuts(s, i + 1)
  }

  /** No letter or digit from `i` on is skipped: each lies inside a match. */
  lemma {:induction false} WordCutsCover(s: string, i: nat, p: nat)
    requires i <= p < |s| && IsAsciiAlnum(s[p])
    ensures exists k :: (0 <= k < |WordCuts(s, i)|
                         && WordCuts(s, i)[k].start <= p < WordCuts(s, i)[k].end)
    decreases |s| - i
  {
    var r := WordCuts(s, i);
    if IsAsciiAlnum(s[i]) {
      var e := WordEnd(s, i);
      var rest := WordCuts(s, e);
      assert r == [Cut(i, e)] + rest;
      if p < e {
        assert r[0].start <= p < r[0].end;
      } else {
        WordCutsCover(s, e, p);
        var k :| 0 <= k < |rest| && rest[k].start <= p < rest[k].end;
        assert r[k + 1] == rest[k];
      }
    } else {
      assert r == WordCuts(s, i + 1);
      WordCutsCover(s, i + 1, p);
    }
  }

  lemma WordMatchStart(s: string, c: Cut)
    requires IsWordMatch(s, c)
    ensures IsAsciiAlnum(s[c.start])
  {
    assert s[c.start..c.end][0] == s[c.start];
  }

  /** The words `re.findall` returns, in order. */
  function Words(s: string): (r: seq<string>)
    ensures var cs := WordCuts(s, 0);
      |r| == |cs| && forall k :: 0 <= k < |r| ==> r[k] == s[cs[k].start..cs[k].end] && IsWord(r[k])
  {
    var cs := WordCuts(s, 0);
    seq(|cs|, k requires 0 <= k < |cs| => s[cs[k].start..cs[k].end])
  }

  predicate HasAlnumFrom(s: string, i: nat) {
    exists k :: i <= k < |s| && IsAsciiAlnum(s[k])
  }

  /** No word is found exactly when there is no ASCII letter or digit. */
  lemma WordsEmptyIff(s: string)
    ensures Words(s) == [] <==> !HasAlnumFrom(s, 0)
  {
    var cs := WordCuts(s, 0);
    if HasAlnumFrom(s, 0) {
      var p :| 0 <= p < |s| && IsAsciiAlnum(s[p]);
      WordCutsCover(s, 0, p);
      assert |Words(s)| == |cs| > 0;
    } else {
      assert |Words(s)| == |cs|;
      if cs != [] {
        WordMatchStart(s, cs[0]);
      }
    }
  }
}
