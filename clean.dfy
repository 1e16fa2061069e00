/** `clean_text`: whitespace normalisation of the document text. */
module Clean {
  import opened PyStr

  /** Whitespace never appears in the result except as a plain space. */
  predicate OnlyPlainSpaces(r: string) {
    forall i :: 0 <= i < |r| && IsSpace(r[i]) ==> r[i] == ' '
  }

  /** No two adjacent whitespace characters. */
  predicate NoDoubleSpace(r: string) {
    forall i :: 1 <= i < |r| && IsSpace(r[i]) ==> !IsSpace(r[i - 1])
  }

  predicate StartsWithSpace(s: string) {
    s != [] && IsSpace(s[0])
  }

  predicate IsClean(r: string) {
    IsStripped(r) && OnlyPlainSpaces(r) && NoDoubleSpace(r)
  }

  /** The text with every whitespace character removed. */
  function NonSpace(s: string): string
  {
    if s == [] then [] else (if IsSpace(s[0]) then [] else [s[0]]) + NonSpace(s[1..])
  }

  /** `re.sub(r'\s+', ' ', text)`: each maximal whitespace run becomes one
      space, every other character is kept in place. */
  function CollapseSpaces(s: string): string
    decreases |s|
  {
    if s == [] then []
    else if IsSpace(s[0]) then " " + CollapseSpaces(s[SpanSpace(s, 0)..])
    else [s[0]] + CollapseSpaces(s[1..])
  }

  /** After the collapse the only whitespace left is single plain spaces,
      the non-whitespace characters are those of the input in order, and the
      result starts with whitespace exactly when the input does. */
  lemma {:induction false} CollapseSpacesShape(s: string)
    ensures var r := CollapseSpaces(s);
      OnlyPlainSpaces(r) && NoDoubleSpace(r) && NonSpace(r) == NonSpace(s)
      && (StartsWithSpace(r) <==> StartsWithSpace(s)) && |r| <= |s|
    decreases |s|
  {
    if s != [] {
      var t := if IsSpace(s[0]) then s[SpanSpace(s, 0)..] else s[1..];
      var rest := CollapseSpaces(t);
      var h := if IsSpace(s[0]) then " " else [s[0]];
      var r := h + rest;
      CollapseSpacesShape(t);
      assert CollapseSpaces(s) == r;
      assert r[1..] == rest;
      if IsSpace(s[0]) {
        NonSpaceOfSpaces(s, SpanSpace(s, 0));
      }
      assert NonSpace(r) == (if IsSpace(s[0]) then [] else [s[0]]) + NonSpace(rest);
      assert OnlyPlainSpaces(r) && NoDoubleSpace(r) by {
        forall i | 1 <= i < |r| ensures r[i] == rest[i - 1] {
        }
      }
    }
  }

  /** `clean_text(text)`: collapse whitespace runs, then `strip()`. The
      result is `' '.join(text.split())`: exactly the whitespace-separated
      words of the text, joined by single spaces. */
  function CleanText(text: string): (r: string)
    ensures r == JoinSpace(SplitWs(text))
  {
    CollapseWords(text);
    JoinSpaceStripped(SplitWs(text));
    StripAround(LeadSpace(text), JoinSpace(SplitWs(text)), TrailSpace(text));
    Strip(CollapseSpaces(text))
  }

  lemma {:induction false} NonSpaceAppend(a: string, b: string)
    ensures NonSpace(a + b) == NonSpace(a) + NonSpace(b)
    decreases |a|
  {
    if a != [] {
      var h := if IsSpace(a[0]) then [] else [a[0]];
      assert (a + b)[0] == a[0];
      assert (a + b)[1..] == a[1..] + b;
      NonSpaceAppend(a[1..], b);
      calc {
        NonSpace(a + b);
        h + NonSpace(a[1..] + b);
        h + (NonSpace(a[1..]) + NonSpace(b));
        (h + NonSpace(a[1..])) + NonSpace(b);
        NonSpace(a) + NonSpace(b);
      }
    } else {
      assert a + b == b;
    }
  }

  lemma {:induction false} NonSpaceAllSpace(s: string)
    requires AllSpace(s, 0, |s|)
    ensures NonSpace(s) == []
    decreases |s|
  {
    if s != [] {
      NonSpaceAllSpace(s[1..]);
    }
  }

  /** Dropping a leading whitespace run does not change the non-space text. */
  lemma NonSpaceOfSpaces(s: string, j: nat)
    requires j <= |s| && AllSpace(s, 0, j)
    ensures NonSpace(s[j..]) == NonSpace(s)
  {
    assert s == s[..j] + s[j..];
    NonSpaceAppend(s[..j], s[j..]);
    NonSpaceAllSpace(s[..j]);
  }

  lemma {:induction false} LStripNonSpace(s: string)
    ensures NonSpace(LStripBy(s, IsSpace)) == NonSpace(s)
    decreases |s|
  {
    if s != [] && IsSpace(s[0]) {
      LStripNonSpace(s[1..]);
    }
  }

  lemma {:induction false} RStripNonSpace(s: string)
    ensures NonSpace(RStripBy(s, IsSpace)) == NonSpace(s)
    decreases |s|
  {
    if s != [] && IsSpace(s[|s| - 1]) {
      var n := |s| - 1;
      assert s == s[..n] + [s[n]];
      NonSpaceAppend(s[..n], [s[n]]);
      assert NonSpace([s[n]]) == [];
      RStripNonSpace(s[..n]);
    }
  }

  /** Stripping whitespace keeps the non-space text and the whitespace
      shape. */
  lemma StripKeepsShape(s: string)
    ensures NonSpace(Strip(s)) == NonSpace(s)
    ensures OnlyPlainSpaces(s) ==> OnlyPlainSpaces(Strip(s))
    ensures NoDoubleSpace(s) ==> NoDoubleSpace(Strip(s))
  {
    var l := LStripBy(s, IsSpace);
    var r := RStripBy(l, IsSpace);
    assert Strip(s) == r;
    LStripNonSpace(s);
    RStripNonSpace(l);
  }

  /** The result of `clean_text` has no leading or trailing whitespace, its
      only whitespace is single plain spaces, and it keeps every
      non-whitespace character of the input in order. */
  lemma CleanTextShape(text: string)
    ensures IsClean(CleanText(text))
    ensures NonSpace(CleanText(text)) == NonSpace(text)
  {
    CollapseSpacesShape(text);
    StripIsStripped(CollapseSpaces(text));
    StripKeepsShape(CollapseSpaces(text));
  }

  /** `clean_text` returns the empty string exactly for all-whitespace input,
      which is when `generate_flashcards_with_ai` returns `[]` at once. */
  lemma CleanTextEmptyIff(text: string)
    ensures CleanText(text) == [] <==> NonSpace(text) == []
  {
    CleanTextShape(text);
    var r := CleanText(text);
    if r != [] {
      assert !IsSpace(r[0]);
      assert NonSpace(r) == [r[0]] + NonSpace(r[1..]);
    }
  }

  /** On a clean string, collapsing changes nothing. */
  lemma {:induction false} CollapseClean(s: string)
    requires OnlyPlainSpaces(s) && NoDoubleSpace(s)
    ensures CollapseSpaces(s) == s
    decreases |s|
  {
    if s != [] {
      assert OnlyPlainSpaces(s[1..]) && NoDoubleSpace(s[1..]) by {
        forall i | 1 <= i < |s[1..]| && IsSpace(s[1..][i]) ensures !IsSpace(s[1..][i - 1]) {
          assert s[1..][i] == s[i + 1];
        }
      }
      if IsSpace(s[0]) {
        var j := SpanSpace(s, 0);
        assert j == 1 by {
          if |s| > 1 {
            assert !IsSpace(s[1]);
          }
        }
        CollapseClean(s[1..]);
      } else {
        CollapseClean(s[1..]);
      }
    }
  }

  /** `clean_text` is idempotent. */
  lemma CleanTextIdempotent(text: string)
    ensures CleanText(CleanText(text)) == CleanText(text)
  {
    var r := CleanText(text);
    CleanTextShape(text);
    CollapseClean(r);
    assert LStripBy(r, IsSpace) == r;
    assert RStripBy(r, IsSpace) == r;
  }

  /** No whitespace character in `s[i..j]`. */
  predicate NoSpace(s: string, i: nat, j: nat)
    requires i <= j <= |s|
  {
    forall k :: i <= k < j ==> !IsSpace(s[k])
  }

  /** Where the run of non-whitespace characters that starts at `i` ends. */
  function SpanWord(s: string, i: nat): (r: nat)
    requires i <= |s|
    ensures i <= r <= |s|
    ensures NoSpace(s, i, r)
    ensures r == |s| || IsSpace(s[r])
    decreases |s| - i
  {
    if i < |s| && !IsSpace(s[i]) then SpanWord(s, i + 1) else i
  }

  /** `str.split()` with no argument: the maximal runs of non-whitespace
      characters, in order. */
  function SplitWs(s: string): (r: seq<string>)
    ensures forall k :: 0 <= k < |r| ==> r[k] != [] && NoSpace(r[k], 0, |r[k]|)
    decreases |s|
  {
    if s == [] then []
    else if IsSpace(s[0]) then SplitWs(s[SpanSpace(s, 0)..])
    else
      var e := SpanWord(s, 0);
      assert NoSpace(s[..e], 0, e) by {
        forall k | 0 <= k < e ensures !IsSpace(s[..e][k]) {
          assert s[..e][k] == s[k];
        }
      }
      [s[..e]] + SplitWs(s[e..])
  }

  predicate EndsWithSpace(s: string) {
    s != [] && IsSpace(s[|s| - 1])
  }

  /** A string with no non-whitespace character has no words. */
  lemma {:induction false} SplitWsEmpty(s: string)
    ensures SplitWs(s) == [] <==> AllSpace(s, 0, |s|)
    decreases |s|
  {
    if s != [] && IsSpace(s[0]) {
      var j := SpanSpace(s, 0);
      SplitWsEmpty(s[j..]);
      assert j < |s| ==> s[j..][0] == s[j];
      if !AllSpace(s[j..], 0, |s| - j) {
        var k :| 0 <= k < |s| - j && !IsSpace(s[j..][k]);
        assert s[j + k] == s[j..][k];
      }
    }
  }

  /** The words joined by single spaces start and end with a non-space
      character. */
  lemma {:induction false} JoinSpaceStripped(ws: seq<string>)
    requires forall k :: 0 <= k < |ws| ==> ws[k] != [] && NoSpace(ws[k], 0, |ws[k]|)
    ensures IsStripped(JoinSpace(ws))
    ensures JoinSpace(ws) == [] <==> ws == []
    decreases |ws|
  {
    if |ws| > 1 {
      JoinSpaceStripped(ws[1..]);
      var j := JoinSpace(ws[1..]);
      var r := ws[0] + " " + j;
      assert r[0] == ws[0][0];
      assert r[|r| - 1] == j[|j| - 1];
    } else if |ws| == 1 {
      assert !IsSpace(ws[0][0]) && !IsSpace(ws[0][|ws[0]| - 1]);
    }
  }

  /** A leading non-space run passes through `CollapseSpaces` unchanged. */
  lemma {:induction false} CollapseWord(s: string, e: nat)
    requires e <= |s| && NoSpace(s, 0, e)
    ensures CollapseSpaces(s) == s[..e] + CollapseSpaces(s[e..])
    decreases e
  {
    if e > 0 {
      var t := s[1..];
      WordShift(s, e);
      CollapseWord(t, e - 1);
      assert CollapseSpaces(s) == [s[0]] + CollapseSpaces(t);
      AppendAssoc([s[0]], t[..e - 1], CollapseSpaces(s[e..]));
    }
  }

  /** Dropping the first character of a leading word keeps the rest of it. */
  lemma WordShift(s: string, e: nat)
    requires 0 < e <= |s| && NoSpace(s, 0, e)
    ensures NoSpace(s[1..], 0, e - 1)
    ensures s[1..][e - 1..] == s[e..] && s[..e] == [s[0]] + s[1..][..e - 1]
  {
    var t := s[1..];
    forall k | 0 <= k < e - 1 ensures !IsSpace(t[k]) {
      assert t[k] == s[k + 1];
    }
  }

  lemma AppendAssoc(a: string, b: string, c: string)
    ensures a + (b + c) == (a + b) + c
  {
  }

  /** The space the collapse puts in front. */
  function LeadSpace(s: string): string {
    if StartsWithSpace(s) then " " else []
  }

  /** The space the collapse puts behind, which `strip()` will drop. */
  function TrailSpace(s: string): string {
    if SplitWs(s) != [] && EndsWithSpace(s) then " " else []
  }

  /** `re.sub(r'\s+', ' ', s)` is the words of `s` joined by single spaces,
      with one more space at each end where `s` has whitespace there around
      its words. */
  lemma {:induction false} CollapseWords(s: string)
    ensures CollapseSpaces(s) == LeadSpace(s) + JoinSpace(SplitWs(s)) + TrailSpace(s)
    decreases |s|, 1
  {
    if s == [] {
      assert CollapseSpaces(s) == [] && SplitWs(s) == [];
    } else if IsSpace(s[0]) {
      CollapseWordsSpace(s);
    } else if SpanWord(s, 0) == |s| {
      CollapseWordsWord(s);
    } else {
      CollapseWordsWordSpace(s);
    }
  }

  /** `CollapseWords` when `s` starts with whitespace. */
  lemma {:induction false} CollapseWordsSpace(s: string)
    requires s != [] && IsSpace(s[0])
    ensures CollapseSpaces(s) == LeadSpace(s) + JoinSpace(SplitWs(s)) + TrailSpace(s)
    decreases |s|, 0
  {
    var t := s[SpanSpace(s, 0)..];
    SpaceUnfold(s);
    SpaceEnds(s);
    CollapseWords(t);
    SpaceCons(CollapseSpaces(t), JoinSpace(SplitWs(t)), TrailSpace(t));
  }

  /** A leading whitespace run collapses to one space and holds no word. */
  lemma SpaceUnfold(s: string)
    requires s != [] && IsSpace(s[0])
    ensures var t := s[SpanSpace(s, 0)..];
      CollapseSpaces(s) == " " + CollapseSpaces(t) && SplitWs(s) == SplitWs(t)
  {
  }

  /** After a leading whitespace run the rest starts with no space and ends
      as `s` does. */
  lemma SpaceEnds(s: string)
    requires s != [] && IsSpace(s[0])
    ensures var t := s[SpanSpace(s, 0)..];
      LeadSpace(s) == " " && LeadSpace(t) == [] && TrailSpace(s) == TrailSpace(t)
  {
    var j := SpanSpace(s, 0);
    var t := s[j..];
    SpaceUnfold(s);
    if j < |s| {
      assert t[|t| - 1] == s[|s| - 1];
    }
  }

  lemma SpaceCons(ct: string, jt: string, tr: string)
    requires ct == [] + jt + tr
    ensures " " + ct == " " + jt + tr
  {
  }

  /** `CollapseWords` when `s` is a single word. */
  lemma CollapseWordsWord(s: string)
    requires s != [] && !IsSpace(s[0]) && SpanWord(s, 0) == |s|
    ensures CollapseSpaces(s) == LeadSpace(s) + JoinSpace(SplitWs(s)) + TrailSpace(s)
  {
    CollapseClean(s);
    SingleWord(s);
    assert JoinSpace([s]) == s;
  }

  /** A string without whitespace is its own single word. */
  lemma SingleWord(s: string)
    requires s != [] && !IsSpace(s[0]) && SpanWord(s, 0) == |s|
    ensures SplitWs(s) == [s] && LeadSpace(s) == [] && TrailSpace(s) == []
  {
    WordSplit(s);
    assert s[..|s|] == s;
    assert SplitWs(s[|s|..]) == [];
  }

  /** When `s` starts with the word `s[..e]`, the split of `s` is that word
      followed by the split of `s[e..]`. */
  lemma WordSplit(s: string)
    requires s != [] && !IsSpace(s[0])
    ensures var e := SpanWord(s, 0); SplitWs(s) == [s[..e]] + SplitWs(s[e..])
  {
  }

  /** When whitespace follows that word, the trailing space of `s` is that
      of `s[e..]`, or the one after the word when `s[e..]` holds no word. */
  lemma WordTrail(s: string)
    requires s != [] && !IsSpace(s[0]) && SpanWord(s, 0) < |s|
    ensures var t := s[SpanWord(s, 0)..];
      TrailSpace(s) == (if SplitWs(t) == [] then " " else TrailSpace(t))
      && (SplitWs(t) == [] ==> TrailSpace(t) == [])
  {
    var e := SpanWord(s, 0);
    var t := s[e..];
    WordSplit(s);
    assert SplitWs(s) != [];
    assert EndsWithSpace(s) == EndsWithSpace(t) by {
      assert t[|t| - 1] == s[|s| - 1];
    }
    if SplitWs(t) == [] {
      SplitWsEmpty(t);
      assert EndsWithSpace(t) by {
        assert AllSpace(t, 0, |t|) && 0 <= |t| - 1;
      }
    }
  }

  /** `CollapseWords` when `s` starts with a word that whitespace follows. */
  lemma {:induction false} CollapseWordsWordSpace(s: string)
    requires s != [] && !IsSpace(s[0]) && SpanWord(s, 0) < |s|
    ensures CollapseSpaces(s) == LeadSpace(s) + JoinSpace(SplitWs(s)) + TrailSpace(s)
    decreases |s|, 0
  {
    var e := SpanWord(s, 0);
    var t := s[e..];
    CollapseWord(s, e);
    WordSplit(s);
    WordTrail(s);
    assert LeadSpace(s) == [] && LeadSpace(t) == " ";
    CollapseWords(t);
    JoinCons(s[..e], SplitWs(t), CollapseSpaces(t), TrailSpace(t));
  }

  /** Putting the word `w` in front of the collapse of the rest, which starts
      with a space, puts it in front of the joined words. */
  lemma JoinCons(w: string, ws: seq<string>, ct: string, tr: string)
    requires ct == " " + JoinSpace(ws) + tr
    requires ws == [] ==> tr == []
    ensures w + ct == [] + JoinSpace([w] + ws) + (if ws == [] then " " else tr)
  {
    if ws == [] {
      assert [w] + ws == [w];
    } else {
      assert ([w] + ws)[1..] == ws;
    }
  }

  /** Stripping whitespace off `x + j + y` leaves `j` when `x` and `y` are
      whitespace and `j` has none at its ends. */
  lemma StripAround(x: string, j: string, y: string)
    requires AllSpace(x, 0, |x|) && AllSpace(y, 0, |y|) && IsStripped(j)
    ensures Strip(x + j + y) == j
  {
    if j == [] {
      assert x + j + y == x + y;
      assert AllSpace(x + y, 0, |x + y|) by {
        forall k | 0 <= k < |x + y| ensures IsSpace((x + y)[k]) {
          if k >= |x| {
            assert (x + y)[k] == y[k - |x|];
          }
        }
      }
      LStripPrefix(x + y, [], IsSpace);
      assert x + y + [] == x + y;
    } else {
      assert x + j + y == x + (j + y);
      LStripPrefix(x, j + y, IsSpace);
      RStripSuffix(j, y, IsSpace);
    }
  }
}
