/** `extract_last_json_array`: `re.findall(r'\[[\s\S]*?\]', text)` and the
    last of its matches. */
module JsonArray {
  import opened PyStr

  /** The half-open index range `[start, end)` of one match. */
  datatype Span = Span(start: nat, end: nat)

  /** `m` is a match of `\[[\s\S]*?\]` that begins at `m.start`: an opening
      bracket, then the shortest run of any characters up to and including
      the first closing bracket after it. */
  predicate IsArraySpan(s: string, m: Span) {
    m.start + 2 <= m.end <= |s| && s[m.start] == '[' && s[m.end - 1] == ']'
    && forall k :: m.start < k < m.end - 1 ==> s[k] != ']'
  }

  /** Some `[` at or after `i` has a `]` somewhere after it. */
  predicate HasArrayFrom(s: string, i: nat) {
    exists a, b :: i <= a < b < |s| && s[a] == '[' && s[b] == ']'
  }

  predicate NoOpenBetween(s: string, a: nat, b: nat) {
    forall k :: a <= k < b && k < |s| ==> s[k] != '['
  }

  /** The matches of `re.findall` from position `i` on, left to right: the
      scan tries each position in turn; at a `[` with a `]` somewhere after
      it, the match ends at the first such `]` and the scan resumes after it.
      Every element is a match, and the matches do not overlap. */
  function FindAll(s: string, i: nat): (r: seq<Span>)
    requires i <= |s|
    ensures forall k :: 0 <= k < |r| ==> IsArraySpan(s, r[k]) && i <= r[k].start
    ensures forall k :: 0 <= k < |r| - 1 ==> r[k].end <= r[k + 1].start
    decreases |s| - i
  {
    if i == |s| then []
    else if s[i] == '[' then
      match IndexOf(s, ']', i + 1)
      case Some(j) => [Span(i, j + 1)] + FindAll(s, j + 1)
      case None => FindAll(s, i + 1)
    else FindAll(s, i + 1)
  }

  /** `findall` finds nothing exactly when no `[` is followed by a `]`. */
  lemma {:induction false} FindAllEmptyIff(s: string, i: nat)
    requires i <= |s|
    ensures FindAll(s, i) == [] <==> !HasArrayFrom(s, i)
    decreases |s| - i
  {
    if i < |s| {
      if s[i] == '[' && IndexOf(s, ']', i + 1).Some? {
        var j := IndexOf(s, ']', i + 1).value;
        assert i < j && s[i] == '[' && s[j] == ']';
      } else {
        FindAllEmptyIff(s, i + 1);
        if HasArrayFrom(s, i) {
          var a, b :| i <= a < b < |s| && s[a] == '[' && s[b] == ']';
          assert a != i;
          assert HasArrayFrom(s, i + 1);
        }
      }
    }
  }

  /** No `[` lies before `r`'s first match (from `i` on) or in a gap between
      two consecutive matches of `r`. */
  predicate Leftmost(s: string, i: nat, r: seq<Span>) {
    (r != [] ==> NoOpenBetween(s, i, r[0].start))
    && forall k :: 0 <= k < |r| - 1 ==> NoOpenBetween(s, r[k].end, r[k + 1].start)
  }

  /** Leftmost matching: no `[` is skipped before the first match or between
      two consecutive matches. */
  lemma {:induction false} FindAllLeftmost(s: string, i: nat)
    requires i <= |s|
    ensures Leftmost(s, i, FindAll(s, i))
    decreases |s| - i
  {
    if i < |s| {
      if s[i] == '[' && IndexOf(s, ']', i + 1).Some? {
        var j := IndexOf(s, ']', i + 1).value;
        FindAllLeftmost(s, j + 1);
        LeftmostMatch(s, i, j);
      } else if s[i] == '[' {
        UnclosedFindsNothing(s, i);
      } else {
        FindAllLeftmost(s, i + 1);
        LeftmostSkip(s, i);
      }
    }
  }

  /** The step at a `[` whose first `]` after it is at `j`. */
  lemma LeftmostMatch(s: string, i: nat, j: nat)
    requires i < |s| && s[i] == '[' && IndexOf(s, ']', i + 1) == Some(j)
    requires Leftmost(s, j + 1, FindAll(s, j + 1))
    ensures Leftmost(s, i, FindAll(s, i))
  {
    FindAllAt(s, i, j);
    LeftmostCons(s, i, j + 1, FindAll(s, j + 1));
  }

  /** The step at a position that holds no `[`. */
  lemma LeftmostSkip(s: string, i: nat)
    requires i < |s| && s[i] != '['
    requires Leftmost(s, i + 1, FindAll(s, i + 1))
    ensures Leftmost(s, i, FindAll(s, i))
  {
    assert FindAll(s, i) == FindAll(s, i + 1);
  }

  /** A `[` with no `]` anywhere after it: nothing matches from there on. */
  lemma UnclosedFindsNothing(s: string, i: nat)
    requires i < |s| && s[i] == '[' && IndexOf(s, ']', i + 1).None?
    ensures FindAll(s, i) == []
  {
    FindAllEmptyIff(s, i + 1);
    assert !HasArrayFrom(s, i + 1);
  }

  /** A match `[i, e)` put in front of a leftmost run from `e` gives a
      leftmost run from `i`. */
  lemma LeftmostCons(s: string, i: nat, e: nat, rest: seq<Span>)
    requires Leftmost(s, e, rest)
    requires rest != [] ==> e <= rest[0].start
    ensures Leftmost(s, i, [Span(i, e)] + rest)
  {
    var r := [Span(i, e)] + rest;
    forall k | 0 <= k < |r| - 1 ensures NoOpenBetween(s, r[k].end, r[k + 1].start) {
      if k > 0 {
        assert r[k] == rest[k - 1] && r[k + 1] == rest[k];
      } else {
        assert r[1] == rest[0];
      }
    }
  }

  /** Nothing matches after the last match. */
  lemma {:induction false} FindAllLast(s: string, i: nat)
    requires i <= |s| && FindAll(s, i) != []
    ensures LastClear(s, FindAll(s, i))
    decreases |s| - i
  {
    if s[i] == '[' && IndexOf(s, ']', i + 1).Some? {
      var j := IndexOf(s, ']', i + 1).value;
      if FindAll(s, j + 1) == [] {
        LastIsOnly(s, i, j);
      } else {
        FindAllLast(s, j + 1);
        LastOfRest(s, i, j);
      }
    } else {
      SkipUnmatched(s, i);
      FindAllLast(s, i + 1);
    }
  }

  /** `r` is non-empty and no `[ … ]` starts after its last match ends. */
  predicate LastClear(s: string, r: seq<Span>) {
    r != [] && !HasArrayFrom(s, r[|r| - 1].end)
  }

  /** A position that starts no match is skipped. */
  lemma SkipUnmatched(s: string, i: nat)
    requires i < |s| && !(s[i] == '[' && IndexOf(s, ']', i + 1).Some?)
    ensures FindAll(s, i) == FindAll(s, i + 1)
  {
  }

  /** When nothing matches after the match `[i, j]`, it is the last one. */
  lemma LastIsOnly(s: string, i: nat, j: nat)
    requires i < |s| && s[i] == '[' && IndexOf(s, ']', i + 1) == Some(j)
    requires FindAll(s, j + 1) == []
    ensures LastClear(s, FindAll(s, i))
  {
    FindAllAt(s, i, j);
    FindAllEmptyIff(s, j + 1);
    var r := FindAll(s, i);
    assert r == [Span(i, j + 1)] + [];
    assert r[|r| - 1].end == j + 1;
  }

  /** A match `[i, j]` followed by the matches after `]`. */
  lemma FindAllAt(s: string, i: nat, j: nat)
    requires i < |s| && s[i] == '[' && IndexOf(s, ']', i + 1) == Some(j)
    ensures FindAll(s, i) == [Span(i, j + 1)] + FindAll(s, j + 1)
  {
  }

  /** Otherwise the last match is the last one found after `]`. */
  lemma LastOfRest(s: string, i: nat, j: nat)
    requires i < |s| && s[i] == '[' && IndexOf(s, ']', i + 1) == Some(j)
    requires LastClear(s, FindAll(s, j + 1))
    ensures LastClear(s, FindAll(s, i))
  {
    var rest := FindAll(s, j + 1);
    FindAllAt(s, i, j);
    var r := [Span(i, j + 1)] + rest;
    assert r[|r| - 1] == rest[|rest| - 1];
  }

  /** `extract_last_json_array(text)`: `None` when nothing matched, otherwise
      the text of the last match. */
  function ExtractLastJsonArray(text: string): (r: Option<string>)
    ensures r.None? <==> !HasArrayFrom(text, 0)
    ensures r.Some? ==>
      exists m :: IsArraySpan(text, m) && r.value == text[m.start..m.end]
                  && !HasArrayFrom(text, m.end)
    ensures r.Some? ==> var ms := FindAll(text, 0);
      ms != [] && r.value == text[ms[|ms| - 1].start..ms[|ms| - 1].end]
  {
    var ms := FindAll(text, 0);
    FindAllEmptyIff(text, 0);
    if ms == [] then None
    else
      var m := ms[|ms| - 1];
      FindAllLast(text, 0);
      Some(text[m.start..m.end])
  }

  /** The text of a match starts with `[`, ends with `]` and holds no other
      `]`, so the located array is never empty text. */
  lemma ExtractedArrayShape(text: string)
    requires ExtractLastJsonArray(text).Some?
    ensures var a := ExtractLastJsonArray(text).value;
      2 <= |a| && a[0] == '[' && a[|a| - 1] == ']'
      && forall k :: 0 < k < |a| - 1 ==> a[k] != ']'
  {
    var ms := FindAll(text, 0);
    var m := ms[|ms| - 1];
    assert IsArraySpan(text, m);
    var a := text[m.start..m.end];
    assert ExtractLastJsonArray(text).value == a;
    forall k | 0 < k < |a| - 1 ensures a[k] != ']' {
      assert a[k] == text[m.start + k];
    }
  }

  /** The located array is the LAST of the left-to-right matches. */
  lemma ExtractIsLastMatch(text: string)
    requires FindAll(text, 0) != []
    ensures var ms := FindAll(text, 0);
      ExtractLastJsonArray(text)
      == Some(text[ms[|ms| - 1].start..ms[|ms| - 1].end])
  {
  }
}
