/** The older document reconstruction, `transformToDecOffDoc`: the same five-part record from
    an href and the text fragments of a Decision or Offence document, with its own file-name
    rules, required words, header joining, incident filter and date format. */
module DecOffDoc {
  import opened JsText
  import opened Matchers
  import opened Failures
  import opened Fields
  import opened Penalty
  import PenaltyDoc

  // ---------------------------------------------------------------------------------------
  // File name, grand prix, document type and incident title.

  /** The last path segment without its extension, `_` turned into spaces, lower-cased. */
  function FileName(href: string): string {
    Lower(ReplaceAll(PenaltyDoc.FileStem(href), "_", " "))
  }

  /** A trailing `-<digits>` removed, then a trailing `-(<digits>)`, then the ends trimmed.
      Both patterns demand one `_` or `-`; the underscores are gone by now. */
  function Unsuffixed(fileName: string): string {
    Trim(RemoveFirstMatch(DashParenSuffix, RemoveFirstMatch(DashDigitsSuffix, fileName)))
  }

  /** The name without its grand prix name, trimmed, cut to ten characters. */
  function TypeWindow(name: string, gpName: string): string {
    Slice(Trim(ReplaceFirst(name, gpName, "")), 0, 10)
  }

  /** The document type: "offence" first, then "decision", looked for in the window. */
  function DocType(name: string, gpName: string): (r: string)
    ensures r in {"offence", "decision", "wrong doc type"}
  {
    var str := TypeWindow(name, gpName);
    if Contains(str, "offence") then "offence"
    else if Contains(str, "decision") then "decision"
    else "wrong doc type"
  }

  /** The incident title, before its keyword: the grand prix name removed, a dash dropped. */
  function TitleHead(name: string, gpName: string): string {
    PenaltyDoc.DropLeadingDash(Trim(ReplaceFirst(name, gpName, "")))
  }

  /** A leading keyword of `|w|` characters removed, when the first `|w|` characters read
      `w` once trimmed. */
  function DropKeyword(s: string, w: string): string {
    if Trim(Slice(s, 0, |w|)) == w then Trim(SliceFrom(s, |w|)) else s
  }

  /** The incident title: "offence", then "decision", then a dash dropped from the front. */
  function IncidentTitle(name: string, gpName: string): string {
    PenaltyDoc.DropLeadingDash(DropKeyword(DropKeyword(TitleHead(name, gpName), "offence"), "decision"))
  }

  /** The file name holds no underscore and is lower case. */
  lemma FileNameShape(href: string)
    ensures '_' !in FileName(href) && IsLowered(FileName(href))
  {
    var stem := PenaltyDoc.FileStem(href);
    ReplaceAllCharGone(stem, '_', ' ');
    PenaltyDoc.LowerKeepsNoUnderscore(ReplaceAll(stem, "_", " "));
    LowerIsLowered(ReplaceAll(stem, "_", " "));
  }

  /** Every character of the cut name comes from the name. */
  lemma UnsuffixedChars(fileName: string)
    ensures forall c :: c in Unsuffixed(fileName) ==> c in fileName
  {
    var r := RemoveFirstMatch(DashParenSuffix, RemoveFirstMatch(DashDigitsSuffix, fileName));
    TrimShape(r);
  }

  /** The stored document name has no white space at either end, no underscore, and is
      lower case. */
  lemma DocNameShape(href: string)
    ensures var u := Unsuffixed(FileName(href));
      IsTrimmed(u) && '_' !in u && IsLowered(u)
  {
    var f := FileName(href);
    FileNameShape(href);
    UnsuffixedChars(f);
    var u := Unsuffixed(f);
    TrimShape(RemoveFirstMatch(DashParenSuffix, RemoveFirstMatch(DashDigitsSuffix, f)));
    forall i | 0 <= i < |u| ensures LowerChar(u[i]) == u[i] {
      assert u[i] in f;
    }
  }

  lemma DropKeywordShape(s: string, w: string)
    requires IsTrimmed(s)
    ensures IsTrimmed(DropKeyword(s, w)) && |DropKeyword(s, w)| <= |s|
  {
    TrimShape(SliceFrom(s, |w|));
  }

  /** The title has no white space at either end and is never longer than the name. */
  lemma IncidentTitleShape(name: string, gpName: string)
    ensures IsTrimmed(IncidentTitle(name, gpName)) && |IncidentTitle(name, gpName)| <= |name|
  {
    var r := ReplaceFirst(name, gpName, "");
    assert |r| <= |name|;
    TrimShape(r);
    PenaltyDoc.DropLeadingDashShape(Trim(r));
    var h := TitleHead(name, gpName);
    DropKeywordShape(h, "offence");
    DropKeywordShape(DropKeyword(h, "offence"), "decision");
    PenaltyDoc.DropLeadingDashShape(DropKeyword(DropKeyword(h, "offence"), "decision"));
  }

  /** A keyword at the front of `<kw> - <rest>` is dropped, and trimming leaves the dash. */
  lemma DropKeywordFront(kw: string, rest: string)
    requires IsKeyword(kw)
    ensures DropKeyword(PenaltyDoc.Dashed(kw, rest), kw) == Trim(" - " + rest)
  {
    KeywordLetters(kw);
    DropWordFront(kw, rest);
  }

  /** A word with no white space at either end, at the front of `<w> - <rest>`, is dropped. */
  lemma DropWordFront(w: string, rest: string)
    requires |w| > 0 && IsTrimmed(w)
    ensures DropKeyword(PenaltyDoc.Dashed(w, rest), w) == Trim(" - " + rest)
  {
    var u := PenaltyDoc.Dashed(w, rest);
    assert Slice(u, 0, |w|) == w;
    TrimAt(w, 0, |w|);
    assert SliceFrom(u, |w|) == " - " + rest;
  }

  /** A keyword is not dropped from a text whose first character differs from the
      keyword's and is not white space. */
  lemma DropKeywordMiss(x: string, w: string)
    requires |x| > 0 && |w| > 0 && !IsWhite(x[0]) && x[0] != w[0]
    ensures DropKeyword(x, w) == x
  {
    var s := Slice(x, 0, |w|);
    assert s[0] == x[0];
    var a, b := TrimBounds(s);
    assert a == 0;
    assert Trim(s)[0] == x[0];
  }

  /** A keyword followed by a dash and a trimmed rest is trimmed, and long enough for the
      ten-character window. */
  lemma KeywordPartShape(kw: string, rest: string)
    requires IsKeyword(kw) && |rest| > 0 && IsTrimmed(rest)
    ensures var u := PenaltyDoc.Dashed(kw, rest); |u| >= 11 && IsTrimmed(u) && u[..|kw|] == kw
  {
    var u := PenaltyDoc.Dashed(kw, rest);
    KeywordLetters(kw);
    assert u[0] == kw[0] && u[|u| - 1] == rest[|rest| - 1];
  }

  /** The title head of `<grand prix> - <u>` is `<u>`. */
  lemma TitleHeadOfName(gp: string, u: string)
    requires |gp| > 0 && |u| > 0 && IsTrimmed(u)
    ensures TitleHead(PenaltyDoc.Dashed(gp, u), gp) == u
  {
    PenaltyDoc.AfterGrandPrix(gp, u);
    PenaltyDoc.DropDashOfSpaced(u);
  }

  /** Of `<kw> - <rest>` the keyword drops and the dash leave the rest. */
  lemma TitleOfPart(kw: string, rest: string)
    requires (kw == "offence" || kw == "decision") && |rest| > 0 && IsTrimmed(rest)
    ensures PenaltyDoc.DropLeadingDash(DropKeyword(DropKeyword(PenaltyDoc.Dashed(kw, rest), "offence"), "decision")) == rest
  {
    var u := PenaltyDoc.Dashed(kw, rest);
    DropKeywordFront(kw, rest);
    TrimDash(rest);
    var x := Trim(" - " + rest);
    assert x[0] == '-';
    PenaltyDoc.DropDashOfSpaced(rest);
    if kw == "offence" {
      DropKeywordMiss(x, "decision");
    } else {
      assert u[0] == 'd';
      DropKeywordMiss(u, "offence");
    }
  }

  /** For a name `<grand prix> - <keyword> - <rest>` with the keyword "offence" or
      "decision", the older transform's incident title is the rest. */
  lemma IncidentTitleOfName(gp: string, kw: string, rest: string)
    requires PenaltyDoc.IsDocName(gp, kw, rest) && kw != "infringement"
    ensures IncidentTitle(PenaltyDoc.Dashed(gp, PenaltyDoc.Dashed(kw, rest)), gp) == rest
  {
    KeywordPartShape(kw, rest);
    TitleHeadOfName(gp, PenaltyDoc.Dashed(kw, rest));
    TitleOfPart(kw, rest);
  }

  /** The ten-character window of `<grand prix> - <u>` is "- " and the first eight
      characters of `<u>`. */
  lemma TypeWindowOfName(gp: string, u: string)
    requires |gp| > 0 && |u| >= 8 && IsTrimmed(u)
    ensures TypeWindow(PenaltyDoc.Dashed(gp, u), gp) == (" - " + u)[1..11]
  {
    PenaltyDoc.AfterGrandPrix(gp, u);
    TenAfterDash(u);
  }

  /** The first ten characters of a trimmed " - <u>": the dash, a space and eight of `<u>`. */
  lemma TenAfterDash(u: string)
    requires |u| >= 8 && IsTrimmed(u)
    ensures Slice(Trim(" - " + u), 0, 10) == (" - " + u)[1..11]
  {
    TrimDash(u);
    var t := (" - " + u)[1..];
    assert Slice(t, 0, 10) == t[0..10];
  }

  /** The window finds "offence" exactly for the keyword "offence", and "decision" for
      "decision". */
  lemma WindowKeyword(u: string, kw: string)
    requires (kw == "offence" || kw == "decision") && |u| >= 8 && u[..|kw|] == kw
    ensures var w := (" - " + u)[1..11];
      && (Contains(w, "offence") <==> kw == "offence")
      && (kw == "decision" ==> Contains(w, "decision"))
  {
    var w := (" - " + u)[1..11];
    assert w[2..2 + |kw|] == kw by {
      forall k | 0 <= k < |kw| ensures w[2 + k] == kw[k] {
        assert w[2 + k] == (" - " + u)[3 + k] == u[k];
        assert u[k] == u[..|kw|][k];
      }
    }
    if kw == "offence" {
      ContainsAt(w, "offence", 2);
    } else {
      ContainsAt(w, "decision", 2);
      assert w[0] == '-' && w[1] == ' ' && w[2] == 'd' && w[3] == 'e';
      forall k | 0 <= k <= |w| ensures !OccursAt(w, "offence", k) {
        if k + 7 <= |w| {
          assert w[k..k + 7][0] == w[k];
        }
      }
    }
  }

  /** For such a name the older transform's document type is the keyword. */
  lemma DocTypeOfName(gp: string, kw: string, rest: string)
    requires PenaltyDoc.IsDocName(gp, kw, rest) && kw != "infringement"
    ensures DocType(PenaltyDoc.Dashed(gp, PenaltyDoc.Dashed(kw, rest)), gp) == kw
  {
    KeywordPartShape(kw, rest);
    TypeWindowOfName(gp, PenaltyDoc.Dashed(kw, rest));
    WindowKeyword(PenaltyDoc.Dashed(kw, rest), kw);
  }

  /** For such a name the older transform's grand prix name, document type and incident
      title are the grand prix, the keyword and the rest. */
  lemma NameParts(gp: string, kw: string, rest: string)
    requires PenaltyDoc.IsDocName(gp, kw, rest) && kw != "infringement"
    ensures var name := PenaltyDoc.Dashed(gp, PenaltyDoc.Dashed(kw, rest));
      && DashPrefix(name) == gp
      && DocType(name, DashPrefix(name)) == kw
      && IncidentTitle(name, DashPrefix(name)) == rest
  {
    PenaltyDoc.GrandPrixOfName(gp, PenaltyDoc.Dashed(kw, rest));
    DocTypeOfName(gp, kw, rest);
    IncidentTitleOfName(gp, kw, rest);
  }

  /** The window lies inside the name without its grand prix name. */
  lemma TypeWindowWithin(name: string, gpName: string, w: string)
    requires Contains(TypeWindow(name, gpName), w)
    ensures Contains(ReplaceFirst(name, gpName, ""), w)
  {
    var x := ReplaceFirst(name, gpName, "");
    var a, b := TrimBounds(x);
    var t := Trim(x);
    var c := Clamp(10, |t|);
    if 0 < c {
      assert TypeWindow(name, gpName) == t[0..c];
      ContainsWithin(t, t[0..c], 0, w);
    } else {
      assert TypeWindow(name, gpName) == t[0..0];
      ContainsWithin(t, t[0..0], 0, w);
    }
    ContainsWithin(x, t, a, w);
  }

  /** A lower-case word the older window holds is in the lower-cased name without its
      grand prix name, where the newer transform looks for it. */
  lemma WindowWordSeenByNewer(name: string, gpName: string, w: string)
    requires IsLowered(w) && Contains(TypeWindow(name, gpName), w)
    ensures Contains(Lower(ReplaceFirst(name, gpName, "")), w)
  {
    TypeWindowWithin(name, gpName, w);
    ContainsLowered(ReplaceFirst(name, gpName, ""), w);
  }

  lemma KeywordsLowered()
    ensures IsLowered("offence") && IsLowered("decision")
  {
  }

  lemma OlderKeywordSeenByNewer(name: string, gpName: string)
    requires DocType(name, gpName) != "wrong doc type"
    ensures var str := Lower(ReplaceFirst(name, gpName, ""));
      Contains(str, "offence") || Contains(str, "decision")
  {
    KeywordsLowered();
    if Contains(TypeWindow(name, gpName), "offence") {
      WindowWordSeenByNewer(name, gpName, "offence");
    } else {
      WindowWordSeenByNewer(name, gpName, "decision");
    }
  }

  /** A name the older transform accepts as an offence or a decision is never rejected as
      the wrong document type by the newer one. */
  lemma DocTypeAgreesWithNewer(name: string, gpName: string)
    requires DocType(name, gpName) != "wrong doc type"
    ensures PenaltyDoc.DocumentType(name, gpName) != "wrong doc type"
  {
    OlderKeywordSeenByNewer(name, gpName);
    PenaltyDoc.DocumentTypeWrong(name, gpName);
  }

  // ---------------------------------------------------------------------------------------
  // The required words.

  const RequiredWords: seq<string> := ["competitor", "time", "session", "fact", "offence", "decision", "reason"]

  /** Every required word is in some fragment, case-insensitively. */
  predicate HasRequiredWords(data: seq<string>) {
    forall i :: 0 <= i < |RequiredWords| ==> SomeIncludes(data, RequiredWords[i])
  }

  /** Fragments the older check accepts pass the newer one too: its words include all six
      of the newer list. */
  lemma OlderFormatPassesNewer(data: seq<string>)
    requires HasRequiredWords(data)
    ensures PenaltyDoc.RequiredFieldsCheck(data).Pass?
  {
    assert SomeIncludes(data, RequiredWords[0]) && SomeIncludes(data, RequiredWords[1]);
    assert SomeIncludes(data, RequiredWords[3]) && SomeIncludes(data, RequiredWords[4]);
    assert SomeIncludes(data, RequiredWords[5]) && SomeIncludes(data, RequiredWords[6]);
    PenaltyDoc.AllIncludedSix(data, PenaltyDoc.RequiredFields);
    PenaltyDoc.MissingOfEmpty(data, PenaltyDoc.RequiredFields);
  }

  // ---------------------------------------------------------------------------------------
  // The document header.

  /** The header fragments from `p` on with every fragment that ends in a comma joined to
      its successor (or to "undefined" when it is the last), the successor then skipped. */
  function CommaJoined(d: seq<string>, p: nat): seq<string>
    decreases |d| - p
  {
    if p >= |d| then []
    else if EndsWith(d[p], ',') then [d[p] + " " + At(d, p + 1)] + CommaJoined(d, p + 2)
    else [d[p]] + CommaJoined(d, p + 1)
  }

  /** The `map` over the header with its skip list. */
  method JoinCommaLines(d: seq<string>) returns (r: seq<string>)
    ensures r == CommaJoined(d, 0)
  {
    var skip: seq<int> := [];
    r := [];
    ghost var next: nat := 0;
    for i := 0 to |d|
      invariant next == i || next == i + 1
      invariant next == i + 1 <==> i in skip
      invariant forall k :: k in skip ==> k <= i
      invariant r + CommaJoined(d, next) == CommaJoined(d, 0)
    {
      if IndexOf(skip, i) != -1 {
        assert skip[IndexOf(skip, i)] == i;
        next := i + 1;
        continue;
      }
      assert next == i;
      if EndsWith(d[i], ',') {
        var x := d[i] + " " + At(d, i + 1);
        assert CommaJoined(d, i) == [x] + CommaJoined(d, i + 2);
        assert (r + [x]) + CommaJoined(d, i + 2) == r + ([x] + CommaJoined(d, i + 2));
        skip := skip + [i + 1];
        r := r + [x];
        next := i + 2;
      } else {
        assert CommaJoined(d, i) == [d[i]] + CommaJoined(d, i + 1);
        assert (r + [d[i]]) + CommaJoined(d, i + 1) == r + ([d[i]] + CommaJoined(d, i + 1));
        r := r + [d[i]];
        next := i + 1;
      }
    }
  }

  /** Without a fragment ending in a comma the header is unchanged. */
  lemma {:induction false} CommaJoinedNoComma(d: seq<string>, p: nat)
    requires p <= |d| && forall k :: p <= k < |d| ==> !EndsWith(d[k], ',')
    ensures CommaJoined(d, p) == d[p..]
    decreases |d| - p
  {
    if p < |d| {
      CommaJoinedNoComma(d, p + 1);
      assert d[p..] == [d[p]] + d[p + 1..];
    }
  }

  lemma JoinCons(x: string, rest: seq<string>, sep: string)
    requires |rest| > 0
    ensures Join([x] + rest, sep) == x + sep + Join(rest, sep)
  {
    assert ([x] + rest)[1..] == rest;
  }

  /** A fragment ending in a comma absorbs its successor. */
  lemma CommaJoinedAbsorbs(d: seq<string>, p: nat)
    requires p + 1 < |d| && EndsWith(d[p], ',')
    ensures CommaJoined(d, p) == [d[p] + " " + d[p + 1]] + CommaJoined(d, p + 2)
  {
  }

  lemma AbsorbLastText(d: seq<string>, p: nat)
    requires p + 2 == |d| && EndsWith(d[p], ',')
    ensures Join(CommaJoined(d, p), " ") == Join(d[p..], " ")
  {
    CommaJoinedAbsorbs(d, p);
    assert d[p..] == [d[p], d[p + 1]];
  }

  lemma AbsorbText(d: seq<string>, p: nat)
    requires p + 2 < |d| && EndsWith(d[p], ',') && |CommaJoined(d, p + 2)| > 0
    requires Join(CommaJoined(d, p + 2), " ") == Join(d[p + 2..], " ")
    ensures Join(CommaJoined(d, p), " ") == Join(d[p..], " ")
  {
    var head := d[p] + " " + d[p + 1];
    var rest := CommaJoined(d, p + 2);
    CommaJoinedAbsorbs(d, p);
    JoinCons(head, rest, " ");
    assert d[p..] == [d[p]] + d[p + 1..];
    JoinCons(d[p], d[p + 1..], " ");
    assert d[p + 1..] == [d[p + 1]] + d[p + 2..];
    JoinCons(d[p + 1], d[p + 2..], " ");
  }

  lemma PlainText(d: seq<string>, p: nat)
    requires p + 1 < |d| && !EndsWith(d[p], ',') && |CommaJoined(d, p + 1)| > 0
    requires Join(CommaJoined(d, p + 1), " ") == Join(d[p + 1..], " ")
    ensures Join(CommaJoined(d, p), " ") == Join(d[p..], " ")
  {
    assert CommaJoined(d, p) == [d[p]] + CommaJoined(d, p + 1);
    JoinCons(d[p], CommaJoined(d, p + 1), " ");
    assert d[p..] == [d[p]] + d[p + 1..];
    JoinCons(d[p], d[p + 1..], " ");
  }

  /** When the last fragment does not end in a comma, joining runs of the header keeps its
      space-joined text. */
  lemma {:induction false} CommaJoinedText(d: seq<string>, p: nat)
    requires p < |d| && !EndsWith(d[|d| - 1], ',')
    ensures |CommaJoined(d, p)| > 0
    ensures Join(CommaJoined(d, p), " ") == Join(d[p..], " ")
    decreases |d| - p
  {
    if EndsWith(d[p], ',') {
      assert p + 1 < |d|;
      if p + 2 == |d| {
        AbsorbLastText(d, p);
      } else {
        CommaJoinedText(d, p + 2);
        AbsorbText(d, p);
      }
    } else if p + 1 < |d| {
      CommaJoinedText(d, p + 1);
      PlainText(d, p);
    } else {
      assert d[p..] == [d[p]];
    }
  }

  /** The header: the trimmed fragments up to one past "Time". */
  function HeaderStrings(trimmed: seq<string>): seq<string> {
    Slice(trimmed, 0, IndexOf(trimmed, "Time") + 2)
  }

  // ---------------------------------------------------------------------------------------
  // The incident span filter.

  /** What the `map` callback makes of fragment `i`: nothing for the first fragment and for
      fragments of two characters or fewer, "Driver" for a driver line, nothing for
      "The Stewards", and the fragment itself otherwise. */
  function KeptAt(arr: seq<string>, i: nat): seq<string>
    requires i < |arr|
  {
    if i == 0 || |arr[i]| <= 2 then []
    else if MatchesNoDriver(arr[i]) then ["Driver"]
    else if arr[i] == "The Stewards" then []
    else [arr[i]]
  }

  /** The callback throws at fragment `i`. */
  predicate ThrowsAt(arr: seq<string>, i: nat)
    requires i < |arr|
  {
    i != 0 && |arr[i]| > 2 && !MatchesNoDriver(arr[i])
      && i + 1 != |arr| && PenaltyDoc.IsTeam(arr[i]) && PenaltyDoc.IsManager(arr[i + 1])
  }

  /** The span from fragment `i` on after `map` and `filter`, or the throw. */
  function FilterFrom(arr: seq<string>, i: nat): (r: Result<seq<string>>)
    requires i <= |arr|
    ensures r.Err? ==> r.error == NotADriverPenalty
    ensures r.Ok? ==> |r.value| <= |arr| - i
    decreases |arr| - i
  {
    if i == |arr| then Ok([])
    else if ThrowsAt(arr, i) then Err(NotADriverPenalty)
    else
      var rest :- FilterFrom(arr, i + 1);
      Ok(KeptAt(arr, i) + rest)
  }

  /** The incident span: from one past "Time" up to the last "Reason". */
  function IncidentSpan(trimmed: seq<string>): seq<string> {
    Slice(trimmed, IndexOf(trimmed, "Time") + 2, LastIndexOf(trimmed, "Reason"))
  }

  /** A "team" fragment is longer than two characters and no driver line. */
  lemma TeamIsLong(s: string)
    requires PenaltyDoc.IsTeam(s)
    ensures |s| > 2 && !MatchesNoDriver(s)
  {
    TrimShape(s);
    assert |Lower(Trim(s))| == 4;
    if MatchesNoDriver(s) {
      PenaltyDoc.NoDriverIsNoTeam(s);
    }
  }

  lemma ThrowsAtIff(arr: seq<string>, i: nat)
    requires 0 < i < |arr|
    ensures ThrowsAt(arr, i) <==> PenaltyDoc.TeamThenManager(arr, i)
  {
    if PenaltyDoc.IsTeam(arr[i]) {
      TeamIsLong(arr[i]);
    }
  }

  lemma FilterErrStep(arr: seq<string>, i: nat)
    requires i < |arr|
    ensures FilterFrom(arr, i).Err? <==> ThrowsAt(arr, i) || FilterFrom(arr, i + 1).Err?
  {
  }

  lemma {:induction false} FilterErrWitness(arr: seq<string>, i: nat) returns (k: nat)
    requires i < |arr| && FilterFrom(arr, i).Err?
    ensures i <= k < |arr| && 0 < k && PenaltyDoc.TeamThenManager(arr, k)
    decreases |arr| - i
  {
    FilterErrStep(arr, i);
    if ThrowsAt(arr, i) {
      ThrowsAtIff(arr, i);
      k := i;
    } else {
      assert i + 1 < |arr|;
      k := FilterErrWitness(arr, i + 1);
    }
  }

  lemma {:induction false} TeamManagerMakesErr(arr: seq<string>, i: nat)
    requires 0 < i <= |arr| && PenaltyDoc.TeamManagerFrom(arr, i)
    ensures FilterFrom(arr, i).Err?
    decreases |arr| - i
  {
    PenaltyDoc.TeamManagerStep(arr, i);
    ThrowsAtIff(arr, i);
    FilterErrStep(arr, i);
    if !PenaltyDoc.TeamThenManager(arr, i) {
      TeamManagerMakesErr(arr, i + 1);
    }
  }

  /** The filter throws exactly when a "team" fragment other than the first is followed by
      a "manager" one: the first fragment of the span is never examined. */
  lemma FilterErrIff(arr: seq<string>)
    ensures FilterFrom(arr, 0).Err? <==> |arr| > 0 && PenaltyDoc.TeamManagerFrom(arr, 1)
  {
    if |arr| > 0 && FilterFrom(arr, 0).Err? {
      var k := FilterErrWitness(arr, 0);
    }
    if |arr| > 0 && PenaltyDoc.TeamManagerFrom(arr, 1) {
      TeamManagerMakesErr(arr, 1);
      FilterErrStep(arr, 0);
    }
  }

  /** The fragments the filter keeps: longer than two characters, and not "The Stewards". */
  function Selected(s: seq<string>): seq<string> {
    if s == [] then [] else (if |s[0]| > 2 && s[0] != "The Stewards" then [s[0]] else []) + Selected(s[1..])
  }

  /** A kept fragment that the driver pattern matches becomes "Driver". */
  function DriverLabel(s: string): string {
    if MatchesNoDriver(s) then "Driver" else s
  }

  lemma KeptAtIsLabelled(arr: seq<string>, i: nat)
    requires 0 < i < |arr|
    ensures KeptAt(arr, i) == if |arr[i]| > 2 && arr[i] != "The Stewards" then [DriverLabel(arr[i])] else []
  {
    if arr[i] == "The Stewards" {
      PenaltyDoc.StewardsNoDriver();
    }
  }

  lemma FilterOkStep(arr: seq<string>, i: nat)
    requires i < |arr| && FilterFrom(arr, i).Ok?
    ensures FilterFrom(arr, i + 1).Ok?
    ensures FilterFrom(arr, i).value == KeptAt(arr, i) + FilterFrom(arr, i + 1).value
  {
  }

  lemma {:induction false} FilterOkFrom(arr: seq<string>, i: nat)
    requires 0 < i <= |arr| && FilterFrom(arr, i).Ok?
    ensures FilterFrom(arr, i).value == PenaltyDoc.MapSeq(Selected(arr[i..]), DriverLabel)
    decreases |arr| - i
  {
    if i < |arr| {
      FilterOkStep(arr, i);
      FilterOkFrom(arr, i + 1);
      assert arr[i..][1..] == arr[i + 1..];
      var head := if |arr[i]| > 2 && arr[i] != "The Stewards" then [arr[i]] else [];
      assert Selected(arr[i..]) == head + Selected(arr[i + 1..]);
      PenaltyDoc.MapSeqAppend(head, Selected(arr[i + 1..]), DriverLabel);
      KeptAtIsLabelled(arr, i);
    }
  }

  /** Otherwise the filter returns the fragments after the first that are longer than two
      characters and not "The Stewards", in order, driver lines relabelled "Driver". */
  lemma FilterOkValue(arr: seq<string>)
    requires |arr| > 0 && FilterFrom(arr, 0).Ok?
    ensures FilterFrom(arr, 0).value == PenaltyDoc.MapSeq(Selected(arr[1..]), DriverLabel)
  {
    FilterOkStep(arr, 0);
    FilterOkFrom(arr, 1);
  }

  // ---------------------------------------------------------------------------------------
  // Weekend, headline and the grouped body.

  /** The weekend and what follows it: the first fragment, or the first two when the first
      is shorter than twelve characters; a TypeError when there is no fragment. */
  function WeekendSplit(list: seq<string>): (r: Result<(string, seq<string>)>)
    ensures r.Err? <==> list == []
    ensures r.Err? ==> r.error == UndefinedAccess
  {
    if |list| == 0 then Err(UndefinedAccess)
    else if |list[0]| < 12 then Ok((Trim(list[0]) + " " + At(list, 1), SliceFrom(list, 2)))
    else Ok((list[0], SliceFrom(list, 1)))
  }

  /** What follows the weekend is the list without its first one or two fragments. */
  lemma WeekendSplitRest(list: seq<string>)
    requires WeekendSplit(list).Ok?
    ensures var rest := WeekendSplit(list).value.1;
      |list| - 2 <= |rest| < |list| && rest == list[|list| - |rest|..]
  {
  }

  /** The opening statement: everything before the first "Driver". */
  function Headline(rest: seq<string>): seq<string> {
    Slice(rest, 0, IndexOf(rest, "Driver"))
  }

  /** The incident body: everything from the first "Driver" on. */
  function Body(rest: seq<string>): seq<string> {
    SliceFrom(rest, IndexOf(rest, "Driver"))
  }

  /** The headline and the body partition what follows the weekend; when "Driver" is present
      the body starts with it and the headline holds none. */
  lemma HeadlineBodySplit(rest: seq<string>)
    ensures Headline(rest) + Body(rest) == rest
    ensures "Driver" in rest ==> |Body(rest)| > 0 && Body(rest)[0] == "Driver" && "Driver" !in Headline(rest)
  {
    SliceSplit(rest, IndexOf(rest, "Driver"));
    if "Driver" in rest {
      var k := IndexOf(rest, "Driver");
      assert Headline(rest) == rest[..k];
    }
  }

  /** The weekend, the headline and the body of the incident span. */
  datatype IncidentParts = IncidentParts(weekend: string, headline: seq<string>, body: seq<string>)

  /** The incident span filtered and split, or the first error it throws. */
  function IncidentPartsOf(trimmed: seq<string>): (r: Result<IncidentParts>)
    ensures r.Err? ==> r.error in {NotADriverPenalty, UndefinedAccess}
  {
    var kept :- FilterFrom(IncidentSpan(trimmed), 0);
    var split :- WeekendSplit(kept);
    Ok(IncidentParts(split.0, Headline(split.1), Body(split.1)))
  }

  // ---------------------------------------------------------------------------------------
  // Stewards, reason, date and the record.

  /** The stewards: the last three or four fragments of the whole document that are not
      "The Stewards". */
  function Stewards(trimmed: seq<string>, series: string): seq<string> {
    SliceFrom(Without(trimmed, "The Stewards"), -(StewardCount(series) as int))
  }

  /** The stewards never include "The Stewards" and are the last `min(N, |filtered|)`
      fragments of the filtered document. */
  lemma StewardsShape(trimmed: seq<string>, series: string)
    ensures var w := Without(trimmed, "The Stewards");
      var st := Stewards(trimmed, series);
      var n := StewardCount(series);
      "The Stewards" !in st && |st| == (if n < |w| then n else |w|) && st == w[|w| - |st|..]
  {
    var w := Without(trimmed, "The Stewards");
    SliceLast(w, StewardCount(series));
    var st := Stewards(trimmed, series);
    forall x | x in st ensures x in w {
      assert x in w[|w| - |st|..];
    }
  }

  /** The reason paragraph: what follows the last "Reason", without "The Stewards", the
      stewards cut off, joined by spaces. */
  function ReasonContents(trimmed: seq<string>, series: string): string {
    PenaltyDoc.ReasonContents(ReasonTail(trimmed), series)
  }

  /** The fragments after the last "Reason", without "The Stewards". */
  function ReasonTail(trimmed: seq<string>): seq<string> {
    Without(SliceFrom(trimmed, LastIndexOf(trimmed, "Reason") + 1), "The Stewards")
  }

  /** Once the tail after the last "Reason" holds at least as many fragments as there are
      stewards, the stewards of the whole document are the end of that tail. */
  lemma StewardsOfTail(trimmed: seq<string>, series: string)
    requires |ReasonTail(trimmed)| >= StewardCount(series)
    ensures Stewards(trimmed, series) == PenaltyDoc.Stewards(ReasonTail(trimmed), series)
  {
    var l := LastIndexOf(trimmed, "Reason") + 1;
    WithoutSplit(trimmed, l, "The Stewards");
    SliceLastAppend(Without(trimmed[..l], "The Stewards"), ReasonTail(trimmed), StewardCount(series));
  }

  /** `docDate`: `part(text, unit)` stands for `new Date(text).toLocaleString(.., unit)`,
      and the parts are joined as "year/month/day hour:minute". */
  function DocDate(info: map<string, string>, part: (string, string) -> string): string {
    var dateString := PenaltyDoc.Field(info, "Date") + " " + PenaltyDoc.Field(info, "Time");
    part(dateString, "year") + "/" + part(dateString, "month") + "/" + part(dateString, "day")
      + " " + part(dateString, "hour") + ":" + part(dateString, "minute")
  }

  /** Both transforms write the same document date when the locale answers agree: a full
      "DD/MM/YYYY, HH:MM" formatting in the newer and the same parts in the older. */
  lemma DocDateAgreesWithNewer(info: map<string, string>, toLocale: string -> string,
                               part: (string, string) -> string,
                               day: string, month: string, year: string, hour: string, minute: string)
    requires '/' !in day && '/' !in month && '/' !in year && ',' !in year && ',' !in day && ',' !in month
    requires ',' !in hour && ',' !in minute
    requires var ds := PenaltyDoc.Field(info, "Date") + " " + PenaltyDoc.Field(info, "Time");
      && toLocale(ds) == day + "/" + month + "/" + year + ", " + (hour + ":" + minute)
      && part(ds, "day") == day && part(ds, "month") == month && part(ds, "year") == year
      && part(ds, "hour") == hour && part(ds, "minute") == minute
    ensures PenaltyDoc.FormatDate(info, toLocale) == DocDate(info, part)
  {
    TimeHasNoComma(hour, minute);
    PenaltyDoc.FormatDateRearranges(info, toLocale, day, month, year, hour + ":" + minute);
    DateRegroup(year, month, day, hour, minute);
  }

  lemma TimeHasNoComma(hour: string, minute: string)
    requires ',' !in hour && ',' !in minute
    ensures ',' !in hour + ":" + minute
  {
  }

  lemma DateRegroup(year: string, month: string, day: string, hour: string, minute: string)
    ensures year + "/" + month + "/" + day + " " + hour + ":" + minute
      == year + "/" + month + "/" + day + " " + (hour + ":" + minute)
  {
  }

  /** The record built once the incident parts are known, with the throw of the penalty
      loop when there is no Decision. */
  function BuildRecord(href: string, trimmed: seq<string>, parts: IncidentParts, series: string,
                       part: (string, string) -> string): (r: Result<TransformedPdfData>)
    requires Finishes(parts.body, "Offence", 0)
    ensures r.Err? ==> r.error == UndefinedAccess
  {
    var groups :- GroupsOf(parts.body, "Offence", 0);
    RecordOf(href, trimmed, parts, groups, series, part)
  }

  /** The record once the incident fragments are grouped. */
  function RecordOf(href: string, trimmed: seq<string>, parts: IncidentParts, groups: seq<Value>,
                    series: string, part: (string, string) -> string): (r: Result<TransformedPdfData>)
    ensures r.Err? ==> r.error == UndefinedAccess
  {
    var name := Unsuffixed(FileName(href));
    var grandPrixName := DashPrefix(name);
    var documentInfo := Pairs(CommaJoined(HeaderStrings(trimmed), 0), (s: string) => s, "", map[], 0);
    var incidentInfo := PenaltyDoc.IncidentDetails(groups, parts.headline);
    var decision :- DecisionHead(incidentInfo);
    Ok(TransformedPdfData(
      series,
      DocType(name, grandPrixName),
      name,
      DocDate(documentInfo, part),
      grandPrixName,
      Classify(decision),
      parts.weekend,
      IncidentTitle(name, grandPrixName),
      documentInfo,
      incidentInfo["Reason" := Str(ReasonContents(trimmed, series))],
      Stewards(trimmed, series)))
  }

  /** The grouping loops of the transform finish on these fragments. */
  predicate Halts(pdfDataArray: seq<string>) {
    var trimmed := TrimAll(pdfDataArray);
    HasRequiredWords(pdfDataArray) && IncidentPartsOf(trimmed).Ok? ==>
      Finishes(IncidentPartsOf(trimmed).value.body, "Offence", 0)
  }

  /** The record `transformToDecOffDoc` returns, or the error it throws. */
  function DecOffDocument(href: string, pdfDataArray: seq<string>, series: string,
                          part: (string, string) -> string): Result<TransformedPdfData>
    requires Halts(pdfDataArray)
  {
    if !HasRequiredWords(pdfDataArray) then Err(IncorrectFormat)
    else
      var trimmed := TrimAll(pdfDataArray);
      var parts :- IncidentPartsOf(trimmed);
      BuildRecord(href, trimmed, parts, series, part)
  }

  /** `transformToDecOffDoc`. */
  method TransformToDecOffDoc(href: string, pdfDataArray: seq<string>, series: string,
                              part: (string, string) -> string) returns (r: Result<TransformedPdfData>)
    requires Halts(pdfDataArray)
    ensures r == DecOffDocument(href, pdfDataArray, series, part)
  {
    var fileName := FileName(href);
    if !HasRequiredWords(pdfDataArray) {
      return Err(IncorrectFormat);
    }
    var unsuffixedFilename := Unsuffixed(fileName);
    var grandPrixName := DashPrefix(unsuffixedFilename);
    var docType := DocType(unsuffixedFilename, grandPrixName);
    var incidentTitle := IncidentTitle(unsuffixedFilename, grandPrixName);
    var trimmed := TrimAll(pdfDataArray);
    var documentInfoFormatted := JoinCommaLines(HeaderStrings(trimmed));
    var documentInfo := PairUp(documentInfoFormatted, (s: string) => s, "", map[]);
    var incidentInfoStrings := FilterFrom(IncidentSpan(trimmed), 0);
    if incidentInfoStrings.Err? {
      return Err(incidentInfoStrings.error);
    }
    var split := WeekendSplit(incidentInfoStrings.value);
    if split.Err? {
      return Err(split.error);
    }
    var parts := IncidentParts(split.value.0, Headline(split.value.1), Body(split.value.1));
    var groups := SplitIncidentStrings(parts.body, "Offence");
    if groups.Err? {
      return Err(groups.error);
    }
    var incidentInfo := PairUp(groups.value, KeyOf, Str(""), map["Headline" := Str(Join(parts.headline, " "))]);
    var stewards := Stewards(trimmed, series);
    var reasonContents := ReasonContents(trimmed, series);
    var decision := DecisionHead(incidentInfo);
    if decision.Err? {
      return Err(decision.error);
    }
    var penaltyType := ScanPenalty(decision.value);
    var docDate := DocDate(documentInfo, part);
    r := Ok(TransformedPdfData(
      series, docType, unsuffixedFilename, docDate, grandPrixName, penaltyType, parts.weekend,
      incidentTitle, documentInfo, incidentInfo["Reason" := Str(reasonContents)], stewards));
  }

  // ---------------------------------------------------------------------------------------
  // Properties of the whole transform.

  /** The transform throws "Incorrect document format." exactly when a required word is in
      no fragment, before anything else can go wrong. */
  lemma DecOffChecksFirst(href: string, pdfDataArray: seq<string>, series: string,
                          part: (string, string) -> string)
    requires Halts(pdfDataArray)
    ensures var r := DecOffDocument(href, pdfDataArray, series, part);
      (r.Err? && r.error == IncorrectFormat) <==> !HasRequiredWords(pdfDataArray)
  {
  }

  /** A returned record is the one built from the incident parts of the trimmed fragments. */
  lemma DecOffDocumentIsBuilt(href: string, pdfDataArray: seq<string>, series: string,
                              part: (string, string) -> string)
    requires Halts(pdfDataArray) && DecOffDocument(href, pdfDataArray, series, part).Ok?
    ensures HasRequiredWords(pdfDataArray) && IncidentPartsOf(TrimAll(pdfDataArray)).Ok?
    ensures DecOffDocument(href, pdfDataArray, series, part) ==
      BuildRecord(href, TrimAll(pdfDataArray), IncidentPartsOf(TrimAll(pdfDataArray)).value, series, part)
  {
  }

  /** A Fact list that no "Offence" label ends makes the transform throw its TypeError. */
  lemma DecOffDocumentThrowsOnOpenList(href: string, pdfDataArray: seq<string>, series: string,
                                       part: (string, string) -> string)
    requires Halts(pdfDataArray) && HasRequiredWords(pdfDataArray)
    requires IncidentPartsOf(TrimAll(pdfDataArray)).Ok?
    requires GroupsOf(IncidentPartsOf(TrimAll(pdfDataArray)).value.body, "Offence", 0).Err?
    ensures DecOffDocument(href, pdfDataArray, series, part) == Err(UndefinedAccess)
  {
  }

  /** A built record keeps the series, has a document type among the three, a penalty type
      among the twelve categories and a cleaned name. */
  lemma BuildRecordNames(href: string, trimmed: seq<string>, parts: IncidentParts, series: string,
                         part: (string, string) -> string)
    requires Finishes(parts.body, "Offence", 0) && BuildRecord(href, trimmed, parts, series, part).Ok?
    ensures var d := BuildRecord(href, trimmed, parts, series, part).value;
      && d.series == series
      && d.docType in {"offence", "decision", "wrong doc type"}
      && d.penaltyType in Categories
      && IsTrimmed(d.docName) && '_' !in d.docName && IsLowered(d.docName)
  {
    var groups := GroupsOf(parts.body, "Offence", 0).value;
    assert BuildRecord(href, trimmed, parts, series, part) == RecordOf(href, trimmed, parts, groups, series, part);
    DocNameShape(href);
  }

  /** Its incident information carries the reason paragraph: the space-join of the
      fragments after the last "Reason" without "The Stewards", less the last three or four
      of them. Those cut-off fragments complete the paragraph's fragments to the whole
      tail, the paragraph never includes "The Stewards", and once the tail holds as many
      fragments as there are stewards the cut-off ones are the record's stewards. */
  lemma BuildRecordReason(href: string, trimmed: seq<string>, parts: IncidentParts,
                          series: string, part: (string, string) -> string)
    requires Finishes(parts.body, "Offence", 0) && BuildRecord(href, trimmed, parts, series, part).Ok?
    ensures var d := BuildRecord(href, trimmed, parts, series, part).value;
      var w := ReasonTail(trimmed);
      var reason := Slice(w, 0, -(StewardCount(series) as int));
      && "Reason" in d.incidentInfo && d.incidentInfo["Reason"] == Str(Join(reason, " "))
      && reason + PenaltyDoc.Stewards(w, series) == w
      && "The Stewards" !in reason
      && (|w| >= StewardCount(series) ==> reason + d.stewards == w)
  {
    var groups := GroupsOf(parts.body, "Offence", 0).value;
    assert BuildRecord(href, trimmed, parts, series, part) == RecordOf(href, trimmed, parts, groups, series, part);
    var d := BuildRecord(href, trimmed, parts, series, part).value;
    var w := ReasonTail(trimmed);
    var reason := Slice(w, 0, -(StewardCount(series) as int));
    PenaltyDoc.StewardsPartition(w, series);
    forall x | x in reason ensures x in w {
      assert x in reason + PenaltyDoc.Stewards(w, series);
    }
    if |w| >= StewardCount(series) {
      assert d.stewards == Stewards(trimmed, series);
      StewardsOfTail(trimmed, series);
    }
  }

  /** `a` is the end of `b`. */
  predicate IsSuffix(a: seq<string>, b: seq<string>) {
    |a| <= |b| && a == b[|b| - |a|..]
  }

  /** Its stewards are the end of the whole document once "The Stewards" is filtered out,
      and so never include that line. */
  lemma BuildRecordStewards(href: string, trimmed: seq<string>, parts: IncidentParts,
                            series: string, part: (string, string) -> string)
    requires Finishes(parts.body, "Offence", 0) && BuildRecord(href, trimmed, parts, series, part).Ok?
    ensures var st := BuildRecord(href, trimmed, parts, series, part).value.stewards;
      "The Stewards" !in st && IsSuffix(st, Without(trimmed, "The Stewards"))
  {
    var groups := GroupsOf(parts.body, "Offence", 0).value;
    assert BuildRecord(href, trimmed, parts, series, part) == RecordOf(href, trimmed, parts, groups, series, part);
    var st := BuildRecord(href, trimmed, parts, series, part).value.stewards;
    assert st == Stewards(trimmed, series);
    StewardsShape(trimmed, series);
  }
}
