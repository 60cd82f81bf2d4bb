/** The regular expressions of the two transforms, written out as matchers. Each pattern
    here is one of the source's literals with the `i` and `m` flags: letters compare
    without regard to ASCII case, and `$` holds at the end of the text or just before a
    line terminator. A search returns the leftmost match, as `replace` and `match` do. */
module Matchers {
  import opened JsText

  predicate IsDigit(c: char) { '0' <= c <= '9' }

  /** `(_|-)`. */
  predicate IsDash(c: char) { c == '_' || c == '-' }

  /** `$` under the `m` flag. */
  predicate AtLineEnd(s: string, i: nat) {
    i == |s| || (i < |s| && IsLineTerminator(s[i]))
  }

  /** A text on which ASCII lower-casing has no effect. */
  predicate IsLowered(s: string) {
    forall i :: 0 <= i < |s| ==> LowerChar(s[i]) == s[i]
  }

  lemma LowerIsLowered(s: string)
    ensures IsLowered(Lower(s))
  {
  }

  /** Lower-casing a lower-case text changes nothing. */
  lemma LowerKeeps(s: string)
    requires IsLowered(s)
    ensures Lower(s) == s
  {
  }

  lemma LoweredAppend(a: string, b: string)
    requires IsLowered(a) && IsLowered(b)
    ensures IsLowered(a + b)
  {
    forall i | 0 <= i < |a + b| ensures LowerChar((a + b)[i]) == (a + b)[i] {
      if i >= |a| {
        assert (a + b)[i] == b[i - |a|];
      }
    }
  }

  /** Trimming a lower-case text leaves it lower case. */
  lemma TrimLowered(l: string)
    requires IsLowered(l)
    ensures IsLowered(Trim(l))
  {
    var a, b := TrimBounds(l);
    var t := Trim(l);
    forall i | 0 <= i < |t| ensures LowerChar(t[i]) == t[i] {
      assert t[i] == l[a + i];
    }
  }

  /** A lower-case word found in a text is found in its lower-cased form. */
  lemma ContainsLowered(x: string, w: string)
    requires IsLowered(w) && Contains(x, w)
    ensures Contains(Lower(x), w)
  {
    var p := FindFrom(x, w, 0);
    var l := Lower(x);
    assert l[p..p + |w|] == w by {
      forall k | 0 <= k < |w| ensures l[p..p + |w|][k] == w[k] {
        assert x[p + k] == x[p..p + |w|][k];
      }
    }
    ContainsAt(l, w, p);
  }

  /** `w` occurs at `p` when letters are compared case-insensitively. */
  predicate OccursAtFolded(s: string, w: string, p: nat) {
    p + |w| <= |s| && forall k :: 0 <= k < |w| ==> LowerChar(s[p + k]) == w[k]
  }

  lemma FoldedIsExactOnLowered(s: string, w: string, p: nat)
    requires IsLowered(s)
    ensures OccursAtFolded(s, w, p) <==> OccursAt(s, w, p)
  {
    if OccursAtFolded(s, w, p) {
      assert s[p..p + |w|] == w by {
        forall k | 0 <= k < |w| ensures s[p..p + |w|][k] == w[k] {
          assert LowerChar(s[p + k]) == s[p + k];
        }
      }
    }
    if OccursAt(s, w, p) {
      forall k | 0 <= k < |w| ensures LowerChar(s[p + k]) == w[k] {
        assert s[p + k] == s[p..p + |w|][k];
      }
    }
  }

  /** The end of the run of digits that starts at `i`. */
  function DigitRunEnd(s: string, i: nat): (r: nat)
    requires i <= |s|
    ensures i <= r <= |s|
    ensures forall k :: i <= k < r ==> IsDigit(s[k])
    ensures r < |s| ==> !IsDigit(s[r])
    decreases |s| - i
  {
    if i < |s| && IsDigit(s[i]) then DigitRunEnd(s, i + 1) else i
  }

  datatype Pattern =
    | DashZeroSuffix    // /(_|-){1}0$/im
    | DashParenSuffix   // /(_|-){1}?\(\d{1,}\)$/im
    | DashDigitsSuffix  // /(_|-){1}?\d{1,}$/im
    | DocKeyword        // /(offence|decision|infringement)/im
    | TitleKeyword      // /(f(1|2|3)\s)?(offence|decision|infringement){1}/im

  /** The end of the alternation `(offence|decision|infringement)` tried at `p`, or -1. */
  function KeywordEnd(s: string, p: nat): (e: int)
    ensures e == -1 || p < e <= |s|
  {
    if OccursAtFolded(s, "offence", p) then p + 7
    else if OccursAtFolded(s, "decision", p) then p + 8
    else if OccursAtFolded(s, "infringement", p) then p + 12
    else -1
  }

  /** The end of the match of `pat` that starts at `p`, or -1 when there is none.
      `{1}?` is a lazy quantifier that still demands exactly one `_` or `-`; a greedy
      digit run is the only way `\d{1,}` can be followed by `)` or by `$`. */
  function MatchEnd(pat: Pattern, s: string, p: nat): (e: int)
    ensures e == -1 || p < e <= |s|
  {
    match pat
    case DashZeroSuffix =>
      if p + 2 <= |s| && IsDash(s[p]) && s[p + 1] == '0' && AtLineEnd(s, p + 2) then p + 2 else -1
    case DashParenSuffix =>
      if p + 2 <= |s| && IsDash(s[p]) && s[p + 1] == '(' then
        var q := DigitRunEnd(s, p + 2);
        if q > p + 2 && q < |s| && s[q] == ')' && AtLineEnd(s, q + 1) then q + 1 else -1
      else -1
    case DashDigitsSuffix =>
      if p + 1 <= |s| && IsDash(s[p]) then
        var q := DigitRunEnd(s, p + 1);
        if q > p + 1 && AtLineEnd(s, q) then q else -1
      else -1
    case DocKeyword => KeywordEnd(s, p)
    case TitleKeyword =>
      if p + 3 <= |s| && LowerChar(s[p]) == 'f' && '1' <= s[p + 1] <= '3' && IsWhite(s[p + 2])
         && KeywordEnd(s, p + 3) >= 0
      then KeywordEnd(s, p + 3)
      else KeywordEnd(s, p)
  }

  /** The leftmost match of `pat` at or after `p`, as `(start, end)`, or `(-1, -1)`. */
  function FirstMatchFrom(pat: Pattern, s: string, p: nat): (r: (int, int))
    requires p <= |s|
    ensures r.0 == -1 ==> r.1 == -1 && forall k :: p <= k <= |s| ==> MatchEnd(pat, s, k) == -1
    ensures r.0 != -1 ==> p <= r.0 < r.1 <= |s| && r.1 == MatchEnd(pat, s, r.0)
    ensures r.0 != -1 ==> forall k :: p <= k < r.0 ==> MatchEnd(pat, s, k) == -1
    decreases |s| - p
  {
    if MatchEnd(pat, s, p) >= 0 then (p, MatchEnd(pat, s, p))
    else if p == |s| then (-1, -1)
    else FirstMatchFrom(pat, s, p + 1)
  }

  /** The search passes over positions where no match starts. */
  lemma FirstMatchSkip(pat: Pattern, s: string, p: nat, q: nat)
    requires p <= q <= |s|
    requires forall k :: p <= k < q ==> MatchEnd(pat, s, k) == -1
    ensures FirstMatchFrom(pat, s, p) == FirstMatchFrom(pat, s, q)
  {
    var r, r' := FirstMatchFrom(pat, s, p), FirstMatchFrom(pat, s, q);
    if r.0 == -1 {
      assert r'.0 == -1;
    } else {
      assert q <= r.0;
      assert r'.0 == r.0;
    }
  }

  function FirstMatch(pat: Pattern, s: string): (int, int) {
    FirstMatchFrom(pat, s, 0)
  }

  /** `s.replace(pat, '')`. */
  function RemoveFirstMatch(pat: Pattern, s: string): (r: string)
    ensures |r| <= |s|
    ensures forall c :: c in r ==> c in s
  {
    var m := FirstMatch(pat, s);
    if m.0 < 0 then s else s[..m.0] + s[m.1..]
  }

  /** The three document-type keywords. */
  predicate IsKeyword(w: string) {
    w == "offence" || w == "decision" || w == "infringement"
  }

  /** The keywords are made of lower-case letters. */
  lemma KeywordLetters(kw: string)
    requires IsKeyword(kw)
    ensures forall i :: 0 <= i < |kw| ==> 'a' <= kw[i] <= 'z'
    ensures '_' !in kw
  {
  }

  /** No keyword starts at a character that is no letter. */
  lemma NoKeywordAtSign(s: string, p: nat)
    requires p < |s| && !('a' <= LowerChar(s[p]) <= 'z')
    ensures MatchEnd(DocKeyword, s, p) == -1
  {
    assert LowerChar(s[p]) != "offence"[0];
    assert LowerChar(s[p]) != "decision"[0];
    assert LowerChar(s[p]) != "infringement"[0];
  }

  /** A keyword at `p` is what both keyword patterns match there, when the search reaches
      `p`. */
  lemma KeywordFirst(s: string, kw: string, p: nat)
    requires IsKeyword(kw) && OccursAt(s, kw, p)
    ensures FirstMatchFrom(DocKeyword, s, p) == (p, p + |kw|)
    ensures FirstMatchFrom(TitleKeyword, s, p) == (p, p + |kw|)
  {
    assert s[p..p + |kw|] == kw;
    assert s[p] == kw[0];
    assert OccursAtFolded(s, kw, p) by {
      forall k | 0 <= k < |kw| ensures LowerChar(s[p + k]) == kw[k] {
        assert s[p + k] == s[p..p + |kw|][k];
      }
    }
    if kw == "decision" {
      assert LowerChar(s[p]) != "offence"[0];
    } else if kw == "infringement" {
      assert LowerChar(s[p]) != "offence"[0] && LowerChar(s[p]) != "decision"[0];
    }
    assert KeywordEnd(s, p) == p + |kw|;
    assert LowerChar(s[p]) != 'f';
  }

  /** When the first `q` characters are no letters and a keyword follows, that keyword is
      the first match of the document-type pattern. */
  lemma KeywordAfterSigns(s: string, kw: string, q: nat)
    requires IsKeyword(kw) && OccursAt(s, kw, q)
    requires forall k :: 0 <= k < q ==> !('a' <= LowerChar(s[k]) <= 'z')
    ensures FirstMatch(DocKeyword, s) == (q, q + |kw|) && KeywordMatch(s) == kw
  {
    forall k | 0 <= k < q ensures MatchEnd(DocKeyword, s, k) == -1 {
      NoKeywordAtSign(s, k);
    }
    FirstMatchSkip(DocKeyword, s, 0, q);
    KeywordFirst(s, kw, q);
  }

  /** A `_0` or `-0` at the very end of a text without line terminators is the only match
      of the duplicate suffix pattern, and it is removed. */
  lemma DashZeroAtEnd(base: string, dash: char)
    requires IsDash(dash) && forall i :: 0 <= i < |base| ==> !IsLineTerminator(base[i])
    ensures RemoveFirstMatch(DashZeroSuffix, base + [dash, '0']) == base
  {
    var s := base + [dash, '0'];
    forall k | 0 <= k < |base| ensures MatchEnd(DashZeroSuffix, s, k) == -1 {
      assert !AtLineEnd(s, k + 2) by {
        if k + 2 < |base| {
          assert s[k + 2] == base[k + 2];
        } else if k + 2 == |base| {
          assert s[k + 2] == dash;
        } else {
          assert s[k + 2] == '0';
        }
      }
    }
    FirstMatchSkip(DashZeroSuffix, s, 0, |base|);
    assert s[..|base|] == base;
  }

  /** The parenthesised suffix pattern never matches a text without '('. */
  lemma NoParenNoMatch(s: string)
    requires '(' !in s
    ensures RemoveFirstMatch(DashParenSuffix, s) == s
  {
    forall k | 0 <= k <= |s| ensures MatchEnd(DashParenSuffix, s, k) == -1 {
      if k + 2 <= |s| {
        assert s[k + 1] in s;
      }
    }
    FirstMatchSkip(DashParenSuffix, s, 0, |s|);
  }

  /** On a lower-cased text a keyword match at `p` is the keyword itself. */
  lemma KeywordAt(s: string, p: nat)
    requires IsLowered(s) && KeywordEnd(s, p) >= 0
    ensures s[p..KeywordEnd(s, p)] in {"offence", "decision", "infringement"}
    ensures OccursAt(s, s[p..KeywordEnd(s, p)], p)
  {
    if OccursAtFolded(s, "offence", p) {
      FoldedIsExactOnLowered(s, "offence", p);
    } else if OccursAtFolded(s, "decision", p) {
      FoldedIsExactOnLowered(s, "decision", p);
    } else {
      FoldedIsExactOnLowered(s, "infringement", p);
    }
  }

  /** On a lower-cased text no keyword starts where the alternation fails. */
  lemma NoKeywordAt(s: string, p: nat)
    requires IsLowered(s) && KeywordEnd(s, p) == -1
    ensures !OccursAt(s, "offence", p) && !OccursAt(s, "decision", p) && !OccursAt(s, "infringement", p)
  {
    FoldedIsExactOnLowered(s, "offence", p);
    FoldedIsExactOnLowered(s, "decision", p);
    FoldedIsExactOnLowered(s, "infringement", p);
  }

  /** `s.match(/(offence|decision|infringement)/im)` on a lower-cased text, with the text of
      the match when there is one. */
  function KeywordMatch(s: string): (r: string)
    ensures IsLowered(s) && r != "" ==> r in {"offence", "decision", "infringement"}
  {
    var m := FirstMatch(DocKeyword, s);
    if m.0 < 0 then "" else
      var text := s[m.0..m.1];
      assert IsLowered(s) ==> text in {"offence", "decision", "infringement"} by {
        if IsLowered(s) {
          KeywordAt(s, m.0);
        }
      }
      text
  }

  /** A word no position holds is not contained. */
  lemma NowhereNotContained(s: string, w: string)
    requires forall k :: 0 <= k <= |s| ==> !OccursAt(s, w, k)
    ensures !Contains(s, w)
  {
  }

  /** On a lower-cased text the keyword search fails exactly when none of the three words
      occurs in it. */
  lemma KeywordMatchEmpty(s: string)
    requires IsLowered(s)
    ensures KeywordMatch(s) == "" <==>
      !Contains(s, "offence") && !Contains(s, "decision") && !Contains(s, "infringement")
  {
    var m := FirstMatch(DocKeyword, s);
    if m.0 < 0 {
      forall k | 0 <= k <= |s|
        ensures !OccursAt(s, "offence", k) && !OccursAt(s, "decision", k) && !OccursAt(s, "infringement", k)
      {
        assert MatchEnd(DocKeyword, s, k) == -1;
        NoKeywordAt(s, k);
      }
      NowhereNotContained(s, "offence");
      NowhereNotContained(s, "decision");
      NowhereNotContained(s, "infringement");
    } else {
      KeywordAt(s, m.0);
      ContainsAt(s, s[m.0..m.1], m.0);
    }
  }

  /** `/no.\/.driver/im`: "no", any character but a line terminator, "/", another, "driver". */
  predicate NoDriverAt(s: string, i: nat)
    requires i + 11 <= |s|
  {
    && OccursAtFolded(s, "no", i)
    && !IsLineTerminator(s[i + 2]) && s[i + 3] == '/' && !IsLineTerminator(s[i + 4])
    && OccursAtFolded(s, "driver", i + 5)
  }

  predicate MatchesNoDriver(s: string) {
    exists i :: 0 <= i && i + 11 <= |s| && NoDriverAt(s, i)
  }

  lemma LetterIsNotWhite(c: char)
    requires 'a' <= LowerChar(c) <= 'z'
    ensures !IsWhite(c)
  {
  }

  /** A fragment that the driver pattern matches keeps at least eleven characters after
      trimming, so it can never read "team" or "offence". */
  lemma NoDriverIsLong(s: string)
    requires MatchesNoDriver(s)
    ensures |Trim(s)| >= 11
  {
    var i :| 0 <= i && i + 11 <= |s| && NoDriverAt(s, i);
    var a, b := TrimBounds(s);
    assert LowerChar(s[i + 0]) == "no"[0];
    assert LowerChar(s[i + 5 + 5]) == "driver"[5];
    LetterIsNotWhite(s[i]);
    LetterIsNotWhite(s[i + 10]);
    assert a <= i && i + 10 < b;
  }

  /** `name.slice(0, name.indexOf('-')).trim()`: the grand prix part of a file name. */
  function DashPrefix(name: string): string {
    Trim(Slice(name, 0, IndexOf(name, '-')))
  }
}
