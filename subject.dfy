/** `normalize_subject`, the helper of `_fallback_flashcards` that tidies a
    matched subject phrase before it is put into a question. */
module Subject {
  import opened PyStr

  /** The characters of `strip(' .,:;\t\n\r')`. */
  predicate IsTrimChar(c: char) {
    c == ' ' || c == '.' || c == ',' || c == ':' || c == ';' || c == '\t' || c == '\n' || c == '\r'
  }

  /** What the two strips may drop: whitespace and ` .,:;\t\n\r`. */
  predicate IsSpaceOrTrim(c: char) {
    IsSpace(c) || IsTrimChar(c)
  }

  /** The characters the two strips drop at the front of the subject. */
  function TrimHead(subj: string): string {
    StripHead(subj, IsSpace) + StripHead(Strip(subj), IsTrimChar)
  }

  /** The characters the two strips drop at the back of the subject. */
  function TrimTail(subj: string): string {
    StripTail(Strip(subj), IsTrimChar) + StripTail(subj, IsSpace)
  }

  /** `subj.strip().strip(' .,:;\t\n\r')`: one contiguous piece of the
      subject, with only whitespace and ` .,:;\t\n\r` dropped, and only
      around it. */
  function TrimSubject(subj: string): (r: string)
    ensures r == [] || (!IsTrimChar(r[0]) && !IsTrimChar(r[|r| - 1]))
    ensures |r| <= |subj|
    ensures StripSplit(subj, TrimHead(subj), r, TrimTail(subj), IsSpaceOrTrim)
  {
    TrimSplit(subj);
    StripByEnds(Strip(subj), IsTrimChar);
    StripBy(Strip(subj), IsTrimChar)
  }

  /** The two strips of `TrimSubject` compose into one split. */
  lemma TrimSplit(subj: string)
    ensures StripSplit(subj, TrimHead(subj), StripBy(Strip(subj), IsTrimChar), TrimTail(subj), IsSpaceOrTrim)
  {
    var m := Strip(subj);
    StripBySpec(subj, IsSpace);
    StripBySpec(m, IsTrimChar);
    SpaceOrTrimCovers();
    StripSplitCompose(subj, StripHead(subj, IsSpace), m, StripTail(subj, IsSpace),
                      StripHead(m, IsTrimChar), StripBy(m, IsTrimChar), StripTail(m, IsTrimChar),
                      IsSpace, IsTrimChar, IsSpaceOrTrim);
  }

  /** Both strips' character sets lie inside `IsSpaceOrTrim`. */
  lemma SpaceOrTrimCovers()
    ensures forall c :: IsSpace(c) ==> IsSpaceOrTrim(c)
    ensures forall c :: IsTrimChar(c) ==> IsSpaceOrTrim(c)
  {
  }

  /** The alternatives of `(?:In|On|At|During|Within|From)`, in lower case
      (the pattern is compiled with `re.I`). */
  const ContextWords: seq<string> := ["in", "on", "at", "during", "within", "from"]

  /** `s[..e]` is matched by `<w>\s+[^,]+,\s*` with the comma at `c`. */
  predicate ClauseShape(s: string, e: nat, w: string, c: nat) {
    MatchesAt(s, 0, w) && |w| + 2 <= c < e <= |s| && IsSpace(s[|w|]) && s[c] == ','
    && (forall k :: |w| < k < c ==> s[k] != ',') && AllSpace(s, c + 1, e)
  }

  /** Where a leading context clause introduced by `w` ends, if there is one. */
  function ClauseEndFor(s: string, w: string): (r: Option<nat>)
    requires |w| > 0
    ensures r.Some? ==> r.value <= |s|
  {
    if MatchesAt(s, 0, w) && |w| < |s| && IsSpace(s[|w|]) then
      match IndexOf(s, ',', |w| + 1)
      case Some(c) => if c >= |w| + 2 then Some(SpanSpace(s, c + 1)) else None
      case None => None
    else None
  }

  function ClauseEndAmong(s: string, ws: seq<string>): (r: Option<nat>)
    requires forall i :: 0 <= i < |ws| ==> |ws[i]| > 0
    ensures r.Some? ==> r.value <= |s|
  {
    if ws == [] then None
    else match ClauseEndFor(s, ws[0])
      case Some(e) => Some(e)
      case None => ClauseEndAmong(s, ws[1..])
  }

  /** The end of the match of `^(?:In|On|At|During|Within|From)\s+[^,]+,\s*`
      (flags `re.I`) at the start of `s`, if it matches. */
  function ContextClauseEnd(s: string): (r: Option<nat>)
    ensures r.Some? ==> r.value <= |s|
  {
    ClauseEndAmong(s, ContextWords)
  }

  /** `re.sub(r'^(?:In|On|At|During|Within|From)\s+[^,]+,\s*', '', s, flags=re.I)`. */
  function DropContextClause(s: string): (r: string)
    ensures |r| <= |s| && r == s[|s| - |r|..]
    ensures r == s || r == [] || !IsSpace(r[0])
    ensures r == [] || r[|r| - 1] == s[|s| - 1]
  {
    ClauseEndAmongShape(s, ContextWords);
    match ContextClauseEnd(s)
    case Some(e) => s[e..]
    case None => s
  }

  /** `s[..e]` is matched by `<w>\s+` for an article `w`. */
  predicate ArticleShape(s: string, e: nat, w: string) {
    (w == "an" || w == "a" || w == "the") && MatchesAt(s, 0, w) && |w| < e <= |s| && AllSpace(s, |w|, e)
  }

  /** The end of the match of `^(?:an?|the)\s+` (flags `re.I`) at the start of
      `s`: `an?` tries `an` before `a`. */
  function ArticleEnd(s: string): (r: Option<nat>)
    ensures r.Some? ==> r.value <= |s|
  {
    if MatchesAt(s, 0, "an") && 2 < |s| && IsSpace(s[2]) then Some(SpanSpace(s, 2))
    else if MatchesAt(s, 0, "a") && 1 < |s| && IsSpace(s[1]) then Some(SpanSpace(s, 1))
    else if MatchesAt(s, 0, "the") && 3 < |s| && IsSpace(s[3]) then Some(SpanSpace(s, 3))
    else None
  }

  /** `re.sub(r'^(?:an?|the)\s+', '', s, flags=re.I)`. */
  function DropArticle(s: string): (r: string)
    ensures |r| <= |s| && r == s[|s| - |r|..]
    ensures r == s || r == [] || !IsSpace(r[0])
    ensures r == [] || r[|r| - 1] == s[|s| - 1]
  {
    match ArticleEnd(s)
    case Some(e) => s[e..]
    case None => s
  }

  /** `s[0:1].upper() + s[1:]`. */
  function CapitalizeFirst(s: string): (r: string)
    ensures s != [] ==> r == UpperChar(s[0]) + s[1..]
  {
    if s == [] then [] else UpperSingle(s[0]); Upper([s[0]]) + s[1..]
  }

  /** The subject after trimming and the two prefix removals. */
  function CoreSubject(subj: string): (r: string)
    ensures |r| <= |subj|
    ensures r == [] || !IsTrimChar(r[|r| - 1])
  {
    DropArticle(DropContextClause(TrimSubject(subj)))
  }

  /** `normalize_subject(subj)`: only the first character is changed, by
      `str.upper()`, and only when the subject left after the removals has
      at most 60 characters. */
  function NormalizeSubject(subj: string): (r: string)
    ensures |r| <= |subj| + 1
    ensures var c := CoreSubject(subj); |c| > 60 ==> r == c
    ensures var c := CoreSubject(subj); 0 < |c| <= 60 ==> r == UpperChar(c[0]) + c[1..]
    ensures r == [] <==> CoreSubject(subj) == []
  {
    var c := CoreSubject(subj);
    if |c| <= 60 then CapitalizeFirst(c) else c
  }

  lemma UpperSingle(ch: char)
    ensures Upper([ch]) == UpperChar(ch)
  {
    assert Upper([ch]) == UpperChar(ch) + Upper([ch][1..]);
    assert [ch][1..] == [];
  }

  lemma {:induction false} ClauseEndAmongShape(s: string, ws: seq<string>)
    requires forall i :: 0 <= i < |ws| ==> |ws[i]| > 0
    ensures ClauseEndAmong(s, ws).Some? ==>
      var e := ClauseEndAmong(s, ws).value;
      exists w, c :: w in ws && ClauseShape(s, e, w, c)
    ensures ClauseEndAmong(s, ws).Some? ==>
      var e := ClauseEndAmong(s, ws).value;
      e == |s| || !IsSpace(s[e])
    ensures ClauseEndAmong(s, ws).None? ==>
      forall w, e, c :: w in ws ==> !ClauseShape(s, e, w, c)
    decreases |ws|
  {
    if ws != [] {
      ClauseEndForShape(s, ws[0]);
      ClauseEndAmongShape(s, ws[1..]);
      if ClauseEndFor(s, ws[0]).Some? {
        var e := ClauseEndFor(s, ws[0]).value;
        var c :| ClauseShape(s, e, ws[0], c);
        assert ClauseEndAmong(s, ws).value == e;
        assert ws[0] in ws && ClauseShape(s, e, ws[0], c);
      } else if ClauseEndAmong(s, ws[1..]).Some? {
        var e := ClauseEndAmong(s, ws[1..]).value;
        assert ClauseEndAmong(s, ws).value == e;
        var w, c :| w in ws[1..] && ClauseShape(s, e, w, c);
        assert w in ws && ClauseShape(s, e, w, c);
      } else {
        forall w, e, c | w in ws ensures !ClauseShape(s, e, w, c) {
          if w != ws[0] { assert w in ws[1..]; }
        }
      }
    }
  }

  lemma ClauseEndForShape(s: string, w: string)
    requires |w| > 0
    ensures ClauseEndFor(s, w).Some? ==>
      var e := ClauseEndFor(s, w).value;
      (exists c :: ClauseShape(s, e, w, c)) && (e == |s| || !IsSpace(s[e]))
    ensures ClauseEndFor(s, w).None? ==> forall e, c :: !ClauseShape(s, e, w, c)
  {
    if ClauseEndFor(s, w).Some? {
      var e := ClauseEndFor(s, w).value;
      var c := IndexOf(s, ',', |w| + 1).value;
      assert ClauseShape(s, e, w, c);
    } else {
      assert forall e, c :: !ClauseShape(s, e, w, c);
    }
  }

  /** The leading context clause is removed exactly when one of the six words
      (any letter case) starts `s`, followed by whitespace, some text without a
      comma, a comma and optional whitespace; the whole of that whitespace
      goes with it. */
  lemma ContextClauseSpec(s: string)
    ensures ContextClauseEnd(s).Some? ==>
      var e := ContextClauseEnd(s).value;
      DropContextClause(s) == s[e..] && (e == |s| || !IsSpace(s[e]))
      && exists w, c :: w in ContextWords && ClauseShape(s, e, w, c)
    ensures ContextClauseEnd(s).None? ==>
      DropContextClause(s) == s
      && forall w, e, c :: w in ContextWords ==> !ClauseShape(s, e, w, c)
  {
    ClauseEndAmongShape(s, ContextWords);
  }

  /** One leading article `a`, `an` or `the` (any letter case) and the
      whitespace run after it are removed, and nothing else. */
  lemma ArticleSpec(s: string)
    ensures ArticleEnd(s).Some? ==>
      var e := ArticleEnd(s).value;
      DropArticle(s) == s[e..] && (e == |s| || !IsSpace(s[e]))
      && exists w :: ArticleShape(s, e, w)
    ensures ArticleEnd(s).None? ==>
      DropArticle(s) == s && forall e, w :: !ArticleShape(s, e, w)
  {
    if ArticleEnd(s).Some? {
      var e := ArticleEnd(s).value;
      if MatchesAt(s, 0, "an") && 2 < |s| && IsSpace(s[2]) {
        assert ArticleShape(s, e, "an");
      } else if MatchesAt(s, 0, "a") && 1 < |s| && IsSpace(s[1]) {
        assert ArticleShape(s, e, "a");
      } else {
        assert ArticleShape(s, e, "the");
      }
    } else {
      assert forall e, w :: !ArticleShape(s, e, w);
    }
  }

  /** An ASCII lower-case first letter is upper-cased; no other character of a
      short subject changes. */
  lemma NormalizeCapitalizesAscii(subj: string)
    requires var c := CoreSubject(subj); 0 < |c| <= 60 && 'a' <= c[0] <= 'z'
    ensures var c := CoreSubject(subj);
      var r := NormalizeSubject(subj);
      |r| == |c| && r[0] == (c[0] as int - 32) as char
      && forall k :: 1 <= k < |c| ==> r[k] == c[k]
  {
    var c := CoreSubject(subj);
    assert NormalizeSubject(subj) == CapitalizeFirst(c);
    CapitalizeAscii(c);
  }

  lemma CapitalizeAscii(c: string)
    requires c != [] && 'a' <= c[0] <= 'z'
    ensures var r := CapitalizeFirst(c);
      |r| == |c| && r[0] == (c[0] as int - 32) as char
      && forall k :: 1 <= k < |c| ==> r[k] == c[k]
  {
    UpperSingle(c[0]);
    var u := [(c[0] as int - 32) as char];
    assert CapitalizeFirst(c) == u + c[1..];
  }

  lemma UpperCharEnd(ch: char)
    requires ch != '\n'
    ensures var u := UpperChar(ch); u[|u| - 1] != '\n'
  {
  }

  predicate NoTrailingNewline(r: string) {
    r == [] || r[|r| - 1] != '\n'
  }

  lemma CapitalizeEnd(c: string)
    requires NoTrailingNewline(c)
    ensures NoTrailingNewline(CapitalizeFirst(c))
  {
    if c != [] {
      UpperSingle(c[0]);
      var u := UpperChar(c[0]);
      var r := CapitalizeFirst(c);
      assert r == u + c[1..];
      if |c| > 1 {
        assert r[|r| - 1] == c[|c| - 1];
      } else {
        UpperCharEnd(c[0]);
        assert r == u;
      }
    }
  }

  /** A normalised subject never ends in a line break, so `$` in the verb
      test after the colon rule can only match at the very end. */
  lemma NormalizedEnd(subj: string)
    ensures NoTrailingNewline(NormalizeSubject(subj))
  {
    var c := CoreSubject(subj);
    assert NoTrailingNewline(c);
    NormalizeEnd(c, NormalizeSubject(subj));
  }

  lemma NormalizeEnd(c: string, r: string)
    requires NoTrailingNewline(c)
    requires |c| > 60 ==> r == c
    requires |c| <= 60 ==> r == CapitalizeFirst(c)
    ensures NoTrailingNewline(r)
  {
    if |c| <= 60 {
      CapitalizeEnd(c);
    }
  }
}
