/** The newer document reconstruction, `createPenaltyDocument`, and its helpers. */
module PenaltyDoc {
  import opened JsText
  import opened Matchers
  import opened Failures
  import opened Fields
  import opened Penalty

  // ---------------------------------------------------------------------------------------
  // File name, document type and incident title.

  /** The last path segment of an href (or the whole file name) without its four-character
      extension. */
  function FileStem(href: string): string {
    var slash := LastIndexOf(href, '/');
    if slash == -1 then Slice(href, 0, -4) else Slice(SliceFrom(href, slash + 1), 0, -4)
  }

  /** A trailing `_0`/`-0`, then a trailing `_(n)`/`-(n)`, removed. */
  function StripDuplicateSuffix(name: string): string {
    RemoveFirstMatch(DashParenSuffix, RemoveFirstMatch(DashZeroSuffix, name))
  }

  /** `getCleanFilename`: the stem without its duplicate suffix, `_` turned into spaces,
      lower-cased and trimmed. */
  function CleanFilename(href: string): string {
    Trim(Lower(ReplaceAll(StripDuplicateSuffix(FileStem(href)), "_", " ")))
  }

  lemma LowerKeepsNoUnderscore(s: string)
    requires '_' !in s
    ensures '_' !in Lower(s)
  {
    forall i | 0 <= i < |s| ensures Lower(s)[i] != '_' {
      assert s[i] != '_';
    }
  }

  /** The cleaned name holds no underscore, is lower case and has no white space at either end. */
  lemma CleanFilenameShape(href: string)
    ensures '_' !in CleanFilename(href)
    ensures IsLowered(CleanFilename(href))
    ensures IsTrimmed(CleanFilename(href))
  {
    var stripped := StripDuplicateSuffix(FileStem(href));
    ReplaceAllCharGone(stripped, '_', ' ');
    var spaced := ReplaceAll(stripped, "_", " ");
    LowerKeepsNoUnderscore(spaced);
    LowerIsLowered(spaced);
    TrimLowered(Lower(spaced));
    TrimShape(Lower(spaced));
  }

  /** `filename.slice(0, filename.indexOf('-')).trim()`. */
  function GrandPrixName(filename: string): string {
    DashPrefix(filename)
  }

  /** `getDocumentType`: the first of the three keywords in the name once the grand prix
      name is removed, or "wrong doc type". */
  function DocumentType(filename: string, gpName: string): (r: string)
    ensures r in {"offence", "decision", "infringement", "wrong doc type"}
  {
    var str := Lower(ReplaceFirst(filename, gpName, ""));
    LowerIsLowered(ReplaceFirst(filename, gpName, ""));
    var m := KeywordMatch(str);
    if m == "" then "wrong doc type" else m
  }

  /** The type is "wrong doc type" exactly when none of the keywords occurs. */
  lemma DocumentTypeWrong(filename: string, gpName: string)
    ensures var str := Lower(ReplaceFirst(filename, gpName, ""));
      DocumentType(filename, gpName) == "wrong doc type" <==>
      !Contains(str, "offence") && !Contains(str, "decision") && !Contains(str, "infringement")
  {
    var str := Lower(ReplaceFirst(filename, gpName, ""));
    LowerIsLowered(ReplaceFirst(filename, gpName, ""));
    KeywordMatchEmpty(str);
  }

  /** `str.charAt(0) === '-'` and the slice and trim that follow it. */
  function DropLeadingDash(s: string): string {
    if |s| > 0 && s[0] == '-' then Trim(SliceFrom(s, 1)) else s
  }

  /** The name without the grand prix name, lower-cased and trimmed, a leading dash dropped. */
  function TitleStart(filename: string, gpName: string): string {
    DropLeadingDash(Trim(Lower(ReplaceFirst(filename, gpName, ""))))
  }

  /** A keyword within the first twelve characters is removed, with an "f1 "/"f2 "/"f3 "
      right before it. */
  function TitleWithoutKeyword(s: string): string {
    if FirstMatch(DocKeyword, Trim(Slice(s, 0, 12))).0 >= 0 then Trim(RemoveFirstMatch(TitleKeyword, s)) else s
  }

  /** A trailing dot dropped, and the white space it uncovers. */
  function DropTrailingDot(t: string): string {
    if |t| > 0 && t[|t| - 1] == '.' then Trim(Slice(t, 0, |t| - 1)) else t
  }

  /** A leading dash dropped, then a trailing dot. */
  function TitleEnd(s: string): string {
    DropTrailingDot(DropLeadingDash(s))
  }

  /** `getIncidentTitle`. */
  function IncidentTitle(filename: string, gpName: string): string {
    TitleEnd(TitleWithoutKeyword(TitleStart(filename, gpName)))
  }

  lemma DropLeadingDashShape(s: string)
    requires IsTrimmed(s)
    ensures IsTrimmed(DropLeadingDash(s)) && |DropLeadingDash(s)| <= |s|
  {
    if |s| > 0 && s[0] == '-' {
      var u := SliceFrom(s, 1);
      assert u == s[1..];
      TrimShape(u);
    }
  }

  lemma TitleStartShape(filename: string, gpName: string)
    ensures IsTrimmed(TitleStart(filename, gpName)) && |TitleStart(filename, gpName)| <= |filename|
  {
    var k := FindFrom(filename, gpName, 0);
    var r := ReplaceFirst(filename, gpName, "");
    assert |r| <= |filename|;
    TrimShape(Lower(r));
    DropLeadingDashShape(Trim(Lower(r)));
  }

  lemma TitleWithoutKeywordShape(s: string)
    requires IsTrimmed(s)
    ensures IsTrimmed(TitleWithoutKeyword(s)) && |TitleWithoutKeyword(s)| <= |s|
  {
    TrimShape(RemoveFirstMatch(TitleKeyword, s));
  }

  lemma DropTrailingDotShape(t: string)
    ensures IsTrimmed(t) ==> IsTrimmed(DropTrailingDot(t))
    ensures |DropTrailingDot(t)| <= |t|
  {
    if |t| > 0 && t[|t| - 1] == '.' {
      var u := Slice(t, 0, |t| - 1);
      assert u == t[..|t| - 1];
      TrimShape(u);
    }
  }

  lemma TitleEndShape(s: string)
    requires IsTrimmed(s)
    ensures IsTrimmed(TitleEnd(s)) && |TitleEnd(s)| <= |s|
  {
    DropLeadingDashShape(s);
    DropTrailingDotShape(DropLeadingDash(s));
  }

  /** The title has no white space at either end and is never longer than the name. */
  lemma IncidentTitleShape(filename: string, gpName: string)
    ensures IsTrimmed(IncidentTitle(filename, gpName))
    ensures |IncidentTitle(filename, gpName)| <= |filename|
  {
    TitleStartShape(filename, gpName);
    TitleWithoutKeywordShape(TitleStart(filename, gpName));
    TitleEndShape(TitleWithoutKeyword(TitleStart(filename, gpName)));
  }

  /** `a - b`: two parts of a file name around a spaced dash. */
  function Dashed(a: string, b: string): string {
    a + (" - " + b)
  }

  /** A cleaned file name of the usual form `<grand prix> - <keyword> - <rest>`: a grand
      prix name with no dash, a document-type keyword and the incident text, each lower
      case with no white space at either end. */
  predicate IsDocName(gp: string, kw: string, rest: string) {
    && |gp| > 0 && IsTrimmed(gp) && IsLowered(gp) && '-' !in gp
    && IsKeyword(kw)
    && |rest| > 0 && IsTrimmed(rest) && IsLowered(rest)
  }

  /** The grand prix name is everything before the first dash. */
  lemma GrandPrixOfName(gp: string, u: string)
    requires |gp| > 0 && IsTrimmed(gp) && '-' !in gp
    ensures GrandPrixName(Dashed(gp, u)) == gp
  {
    var name := Dashed(gp, u);
    assert name[|gp|] == ' ' && name[|gp| + 1] == '-';
    forall k | 0 <= k < |gp| ensures name[k] != '-' {
      assert name[k] == gp[k];
    }
    assert IndexOf(name, '-') == |gp| + 1;
    var head := Slice(name, 0, |gp| + 1);
    assert head[..|gp|] == gp;
    TrimAt(head, 0, |gp|);
  }

  /** Removing the grand prix name leaves the dash and what follows it. */
  lemma AfterGrandPrix(gp: string, u: string)
    requires |gp| > 0
    ensures ReplaceFirst(Dashed(gp, u), gp, "") == " - " + u
  {
    var name := Dashed(gp, u);
    assert name[0..|gp|] == gp;
    assert FindFrom(name, gp, 0) == 0;
    assert name[|gp|..] == " - " + u;
  }

  /** Lower-casing changes nothing there when the rest is lower case. */
  lemma RemainderOfName(gp: string, u: string)
    requires |gp| > 0 && IsLowered(u)
    ensures Lower(ReplaceFirst(Dashed(gp, u), gp, "")) == " - " + u
  {
    AfterGrandPrix(gp, u);
    LoweredAppend(" - ", u);
    LowerKeeps(" - " + u);
  }

  /** A keyword followed by a dash and the rest, lower case. */
  lemma KeywordPartLowered(kw: string, rest: string)
    requires IsKeyword(kw) && IsLowered(rest)
    ensures IsLowered(Dashed(kw, rest))
  {
    assert IsLowered(kw);
    LoweredAppend(" - ", rest);
    LoweredAppend(kw, " - " + rest);
  }

  /** The document type of such a name is its keyword. */
  lemma DocumentTypeOfName(gp: string, kw: string, rest: string)
    requires IsDocName(gp, kw, rest)
    ensures DocumentType(Dashed(gp, Dashed(kw, rest)), gp) == kw
  {
    var u := Dashed(kw, rest);
    KeywordPartLowered(kw, rest);
    RemainderOfName(gp, u);
    var x := " - " + u;
    assert x[3..3 + |kw|] == kw by {
      assert x[3..] == u;
    }
    assert x[0] == ' ' && x[1] == '-' && x[2] == ' ';
    KeywordAfterSigns(x, kw, 3);
  }

  /** Trimming a text that starts with " - " and dropping its dash leave what follows. */
  lemma DropDashOfSpaced(u: string)
    requires |u| > 0 && IsTrimmed(u)
    ensures DropLeadingDash(Trim(" - " + u)) == u
  {
    TrimDash(u);
    var t := (" - " + u)[1..];
    assert t[0] == '-';
    assert SliceFrom(t, 1) == (" - " + u)[2..];
  }

  /** Lower-casing, trimming and dropping the dash leave the keyword and the rest. */
  lemma TitleStartOfName(gp: string, kw: string, rest: string)
    requires IsDocName(gp, kw, rest)
    ensures TitleStart(Dashed(gp, Dashed(kw, rest)), gp) == Dashed(kw, rest)
  {
    var u := Dashed(kw, rest);
    KeywordPartLowered(kw, rest);
    RemainderOfName(gp, u);
    assert u[0] == kw[0] && u[|u| - 1] == rest[|rest| - 1];
    DropDashOfSpaced(u);
  }

  /** The keyword is removed, and trimming leaves the dash and the rest. */
  lemma TitleWithoutKeywordOfName(kw: string, rest: string)
    requires IsKeyword(kw)
    ensures TitleWithoutKeyword(Dashed(kw, rest)) == Trim(" - " + rest)
  {
    var u := Dashed(kw, rest);
    var v := Slice(u, 0, 12);
    assert v[0..|kw|] == kw;
    TrimKeepsWord(v, kw);
    KeywordFirst(Trim(v), kw, 0);
    assert u[0..|kw|] == kw;
    KeywordFirst(u, kw, 0);
    assert RemoveFirstMatch(TitleKeyword, u) == " - " + rest;
  }

  /** For a name `<grand prix> - <keyword> - <rest>` the grand prix name, document type and
      incident title are its three parts: the grand prix, the keyword, and the rest without
      a final dot. */
  lemma NameParts(gp: string, kw: string, rest: string)
    requires IsDocName(gp, kw, rest)
    ensures var name := Dashed(gp, Dashed(kw, rest));
      && GrandPrixName(name) == gp
      && DocumentType(name, GrandPrixName(name)) == kw
      && IncidentTitle(name, GrandPrixName(name)) == DropTrailingDot(rest)
  {
    GrandPrixOfName(gp, Dashed(kw, rest));
    DocumentTypeOfName(gp, kw, rest);
    TitleStartOfName(gp, kw, rest);
    TitleWithoutKeywordOfName(kw, rest);
    DropDashOfSpaced(rest);
  }

  /** Characters of a file name that need no escaping: lower-case letters, digits, `_`,
      `-` and space. */
  predicate PlainChars(s: string) {
    forall i :: 0 <= i < |s| ==> ('a' <= s[i] <= 'z' || '0' <= s[i] <= '9' || s[i] in "_- ")
  }

  /** A stem of plain characters followed by `_0.pdf` loses only that suffix; the cleaned
      name is the stem with spaces for underscores, lower-cased and trimmed. */
  lemma CleanOfStem(stem: string)
    requires PlainChars(stem)
    ensures CleanFilename(stem + "_0.pdf") == Trim(Lower(ReplaceAll(stem, "_", " ")))
  {
    var href := stem + "_0.pdf";
    forall i | 0 <= i < |href| ensures href[i] != '/' {
      if i < |stem| {
        assert href[i] == stem[i];
      }
    }
    assert LastIndexOf(href, '/') == -1;
    assert FileStem(href) == stem + ['_', '0'];
    assert '(' !in stem && forall i :: 0 <= i < |stem| ==> !IsLineTerminator(stem[i]);
    DashZeroAtEnd(stem, '_');
    NoParenNoMatch(stem);
  }

  /** A name of the usual form is left as it is by lower-casing and trimming. */
  lemma CleanDocName(gp: string, kw: string, rest: string)
    requires IsDocName(gp, kw, rest)
    ensures Trim(Lower(Dashed(gp, Dashed(kw, rest)))) == Dashed(gp, Dashed(kw, rest))
  {
    var u := Dashed(kw, rest);
    KeywordPartLowered(kw, rest);
    LoweredAppend(" - ", u);
    LoweredAppend(gp, " - " + u);
    var name := Dashed(gp, u);
    LowerKeeps(name);
    assert name[0] == gp[0] && name[|name| - 1] == rest[|rest| - 1];
    TrimAt(name, 0, |name|);
  }

  /** Underscores become spaces on both sides of `_-_`, which becomes ` - `. */
  lemma SpacedDashed(a: string, b: string)
    ensures ReplaceAll(a + ("_-_" + b), "_", " ") == Dashed(ReplaceAll(a, "_", " "), ReplaceAll(b, "_", " "))
  {
    ReplaceAllAppend(a, "_-_" + b, '_', " ");
    ReplaceAllAppend("_-_", b, '_', " ");
    ReplaceAllAppend("_", "-_", '_', " ");
    ReplaceAllAppend("-", "_", '_', " ");
    ReplaceAllAbsent("-", '_', " ");
  }

  /** An underscore after a word without one becomes a space. */
  lemma SpacedWords(a: string, b: string)
    requires '_' !in a
    ensures ReplaceAll(a + ("_" + b), "_", " ") == a + (" " + ReplaceAll(b, "_", " "))
  {
    ReplaceAllAppend(a, "_" + b, '_', " ");
    ReplaceAllAppend("_", b, '_', " ");
    ReplaceAllAbsent(a, '_', " ");
  }

  /** `<g>_-_<kw>_-_<r>` with spaces for underscores, for a part `<kw>` without one. */
  lemma SpacedStem(g: string, kw: string, r: string)
    requires '_' !in kw
    ensures ReplaceAll(g + ("_-_" + (kw + ("_-_" + r))), "_", " ")
      == Dashed(ReplaceAll(g, "_", " "), Dashed(kw, ReplaceAll(r, "_", " ")))
  {
    SpacedDashed(g, kw + ("_-_" + r));
    SpacedDashed(kw, r);
    ReplaceAllAbsent(kw, '_', " ");
  }

  /** The file name `<g>_-_<kw>_-_<r>_0.pdf` of plain characters, cleaned: `<g>`, `<kw>` and
      `<r>` with spaces for underscores, joined by " - ", when that is a name of the usual
      form. */
  lemma CleanOfHref(g: string, kw: string, r: string)
    requires PlainChars(g + ("_-_" + (kw + ("_-_" + r))))
    requires IsDocName(ReplaceAll(g, "_", " "), kw, ReplaceAll(r, "_", " "))
    ensures CleanFilename(g + ("_-_" + (kw + ("_-_" + r))) + "_0.pdf")
      == Dashed(ReplaceAll(g, "_", " "), Dashed(kw, ReplaceAll(r, "_", " ")))
  {
    var stem := g + ("_-_" + (kw + ("_-_" + r)));
    var gp, rest := ReplaceAll(g, "_", " "), ReplaceAll(r, "_", " ");
    CleanOfStem(stem);
    KeywordLetters(kw);
    SpacedStem(g, kw, r);
    CleanDocName(gp, kw, rest);
  }

  /** Such a file name's grand prix name is `<g>` with spaces, its document type `<kw>` and
      its incident title `<r>` with spaces, less a final dot. */
  lemma HrefParts(g: string, kw: string, r: string, gp: string, rest: string)
    requires PlainChars(g + ("_-_" + (kw + ("_-_" + r))))
    requires gp == ReplaceAll(g, "_", " ") && rest == ReplaceAll(r, "_", " ") && IsDocName(gp, kw, rest)
    ensures var name := CleanFilename(g + ("_-_" + (kw + ("_-_" + r))) + "_0.pdf");
      && GrandPrixName(name) == gp
      && DocumentType(name, GrandPrixName(name)) == kw
      && IncidentTitle(name, GrandPrixName(name)) == DropTrailingDot(rest)
  {
    CleanOfHref(g, kw, r);
    NameParts(gp, kw, rest);
  }

  lemma PlainAppend(a: string, b: string)
    requires PlainChars(a) && PlainChars(b)
    ensures PlainChars(a + b)
  {
    forall i | 0 <= i < |a + b| ensures var c := (a + b)[i]; 'a' <= c <= 'z' || '0' <= c <= '9' || c in "_- " {
      if i < |a| {
        assert (a + b)[i] == a[i];
      } else {
        assert (a + b)[i] == b[i - |a|];
      }
    }
  }

  /** The example name is made of plain characters. */
  lemma ExamplePlain(g: string, r: string)
    requires g == "australian" + ("_" + "gp") && r == "turn" + ("_" + ("4" + ("_" + "incident")))
    ensures PlainChars(g + ("_-_" + ("offence" + ("_-_" + r))))
  {
    PlainAppend("4", "_" + "incident");
    PlainAppend("turn", "_" + ("4" + ("_" + "incident")));
    PlainAppend("australian", "_" + "gp");
    PlainAppend("_-_", r);
    PlainAppend("offence", "_-_" + r);
    PlainAppend("_-_", "offence" + ("_-_" + r));
    PlainAppend(g, "_-_" + ("offence" + ("_-_" + r)));
  }

  /** The grand prix part of the example with spaces for underscores. */
  lemma ExampleGrandPrix(g: string)
    requires g == "australian" + ("_" + "gp")
    ensures ReplaceAll(g, "_", " ") == "australian gp"
  {
    SpacedWords("australian", "gp");
    ReplaceAllAbsent("gp", '_', " ");
  }

  /** The incident part of the example with spaces for underscores. */
  lemma ExampleIncident(r: string)
    requires r == "turn" + ("_" + ("4" + ("_" + "incident")))
    ensures ReplaceAll(r, "_", " ") == "turn 4 incident"
  {
    SpacedWords("turn", "4" + ("_" + "incident"));
    SpacedWords("4", "incident");
    ReplaceAllAbsent("incident", '_', " ");
    assert ReplaceAll(r, "_", " ") == "turn" + (" " + ("4" + (" " + "incident")));
    IncidentWords();
  }

  lemma IncidentWords()
    ensures "turn" + (" " + ("4" + (" " + "incident"))) == "turn 4 incident"
  {
  }

  /** The example's parts meet the conditions of `HrefParts`. */
  lemma ExampleParts(g: string, r: string)
    requires g == "australian" + ("_" + "gp") && r == "turn" + ("_" + ("4" + ("_" + "incident")))
    ensures PlainChars(g + ("_-_" + ("offence" + ("_-_" + r))))
    ensures "australian gp" == ReplaceAll(g, "_", " ") && "turn 4 incident" == ReplaceAll(r, "_", " ")
    ensures IsDocName("australian gp", "offence", "turn 4 incident")
    ensures DropTrailingDot("turn 4 incident") == "turn 4 incident"
  {
    ExamplePlain(g, r);
    ExampleGrandPrix(g);
    ExampleIncident(r);
    ExampleDocName();
  }

  lemma ExampleDocName()
    ensures IsDocName("australian gp", "offence", "turn 4 incident")
    ensures DropTrailingDot("turn 4 incident") == "turn 4 incident"
  {
  }

  /** The words of the example spell `australian_gp_-_offence_-_turn_4_incident_0.pdf`. */
  lemma ExampleSpelled()
    ensures ("australian" + ("_" + "gp")) + ("_-_" + ("offence" + ("_-_" + ("turn" + ("_" + ("4" + ("_" + "incident")))))))
      + "_0.pdf" == "australian_gp_-_offence_-_turn_4_incident_0.pdf"
  {
  }

  /** The file name `australian_gp_-_offence_-_turn_4_incident_0.pdf`, written from its
      words, gives the grand prix "australian gp", the type "offence" and the title
      "turn 4 incident". */
  lemma HrefPartsExample(g: string, r: string)
    requires g == "australian" + ("_" + "gp") && r == "turn" + ("_" + ("4" + ("_" + "incident")))
    ensures var name := CleanFilename(g + ("_-_" + ("offence" + ("_-_" + r))) + "_0.pdf");
      && GrandPrixName(name) == "australian gp"
      && DocumentType(name, GrandPrixName(name)) == "offence"
      && IncidentTitle(name, GrandPrixName(name)) == "turn 4 incident"
  {
    ExampleParts(g, r);
    HrefParts(g, "offence", r, "australian gp", "turn 4 incident");
  }

  // ---------------------------------------------------------------------------------------
  // The required-field check.

  const RequiredFields: seq<string> := ["competitor", "time", "fact", "offence", "decision", "reason"]
  const RequiredFieldsAlt: seq<string> := ["competitor", "time", "fact", "infringement", "decision", "reason"]

  /** The positions of the words of `words` that no fragment contains, in increasing order. */
  function MissingAt(data: seq<string>, words: seq<string>): (idx: seq<nat>)
    ensures forall k :: 0 <= k < |idx| ==> idx[k] < |words|
    ensures forall k, l :: 0 <= k < l < |idx| ==> idx[k] < idx[l]
    ensures forall i :: i in idx <==> 0 <= i < |words| && !SomeIncludes(data, words[i])
    decreases |words|
  {
    if words == [] then []
    else
      var n := |words| - 1;
      var idx0 := MissingAt(data, words[..n]);
      assert forall i :: 0 <= i < n ==> words[..n][i] == words[i];
      idx0 + (if !SomeIncludes(data, words[n]) then [n] else [])
  }

  /** The upper-cased words of `words` that no fragment contains, case-insensitively. */
  function MissingOf(data: seq<string>, words: seq<string>): (r: seq<string>)
    ensures forall x :: x in r <==>
      exists i :: 0 <= i < |words| && x == Upper(words[i]) && !SomeIncludes(data, words[i])
    decreases |words|
  {
    if words == [] then []
    else
      var last := words[|words| - 1];
      var r0 := MissingOf(data, words[..|words| - 1]);
      assert forall i :: 0 <= i < |words| - 1 ==> words[..|words| - 1][i] == words[i];
      r0 + (if !SomeIncludes(data, last) then [Upper(last)] else [])
  }

  /** The missing words come in list order: the `k`-th is the word at the `k`-th missing
      position. */
  lemma {:induction false} MissingOfOrder(data: seq<string>, words: seq<string>)
    ensures var r, idx := MissingOf(data, words), MissingAt(data, words);
      |r| == |idx| && forall k :: 0 <= k < |r| ==> r[k] == Upper(words[idx[k]])
    decreases |words|
  {
    if words != [] {
      var n := |words| - 1;
      var r0, idx0 := MissingOf(data, words[..n]), MissingAt(data, words[..n]);
      MissingOfOrder(data, words[..n]);
      var miss := !SomeIncludes(data, words[n]);
      assert MissingOf(data, words) == r0 + (if miss then [Upper(words[n])] else []);
      assert MissingAt(data, words) == idx0 + (if miss then [n] else []);
      forall k | 0 <= k < |r0| ensures r0[k] == Upper(words[idx0[k]]) {
        assert words[..n][idx0[k]] == words[idx0[k]];
      }
    }
  }

  /** The first occurrence of an element of a prefix is its first occurrence in the whole. */
  lemma IndexOfPrefix(s: seq<string>, n: nat, x: string)
    requires n <= |s| && x in s[..n]
    ensures 0 <= IndexOf(s[..n], x) == IndexOf(s, x) < n
  {
    var k :| 0 <= k < n && s[..n][k] == x;
    var r1, r2 := IndexOf(s[..n], x), IndexOf(s, x);
    assert r1 != -1 by { assert s[..n][k] == x; }
    assert s[r1] == x;
    assert r2 != -1 by { assert s[r1] == x; }
    assert r2 <= r1;
    assert s[..n][r2] == x;
  }

  /** Any two elements of `r` occur in `s`, the earlier one of them first. */
  predicate InFirstOccurrenceOrder(r: seq<string>, s: seq<string>) {
    forall i, j :: 0 <= i < j < |r| ==> 0 <= IndexOf(s, r[i]) < IndexOf(s, r[j])
  }

  /** `Array.from(new Set(s))`: the first occurrence of every element, in the order of
      those first occurrences. */
  function Dedup(s: seq<string>): (r: seq<string>)
    ensures forall x :: x in r <==> x in s
    ensures forall i, j :: 0 <= i < j < |r| ==> r[i] != r[j]
    ensures InFirstOccurrenceOrder(r, s)
    decreases |s|
  {
    if s == [] then []
    else
      var n := |s| - 1;
      var r0 := Dedup(s[..n]);
      assert forall x :: x in s <==> x in s[..n] || x == s[n];
      forall x | x in r0 ensures 0 <= IndexOf(s[..n], x) == IndexOf(s, x) < n {
        IndexOfPrefix(s, n, x);
      }
      if s[n] in r0 then r0
      else
        assert IndexOf(s, s[n]) == n by {
          assert s[n] !in s[..n];
          assert forall k :: 0 <= k < n ==> s[k] == s[..n][k];
        }
        r0 + [s[n]]
  }

  /** What `checkForRequiredFields` decides: an error naming every missing field once,
      when both word lists miss something. */
  function RequiredFieldsCheck(data: seq<string>): (r: Outcome)
    ensures r.Fail? ==> r.error.MissingFields?
    ensures r.Fail? ==> forall i, j :: 0 <= i < j < |r.error.fields| ==> r.error.fields[i] != r.error.fields[j]
    ensures r.Fail? ==> forall x :: x in r.error.fields <==>
      x in MissingOf(data, RequiredFields) || x in MissingOf(data, RequiredFieldsAlt)
    ensures r.Fail? ==> InFirstOccurrenceOrder(r.error.fields,
      MissingOf(data, RequiredFields) + MissingOf(data, RequiredFieldsAlt))
  {
    var missing := MissingOf(data, RequiredFields);
    var missingAlt := MissingOf(data, RequiredFieldsAlt);
    if |missing| > 0 && |missingAlt| > 0 then
      Fail(MissingFields(Dedup(missing + missingAlt)))
    else Pass
  }

  /** One of the two `for` loops of `checkForRequiredFields`: the upper-cased words that no
      fragment includes, in list order. */
  method CollectMissing(data: seq<string>, words: seq<string>) returns (missing: seq<string>)
    ensures missing == MissingOf(data, words)
  {
    missing := [];
    for i := 0 to |words|
      invariant missing == MissingOf(data, words[..i])
    {
      assert words[..i + 1][..i] == words[..i];
      if !SomeIncludes(data, words[i]) {
        missing := missing + [Upper(words[i])];
      }
    }
    assert words[..|words|] == words;
  }

  /** `checkForRequiredFields`. */
  method CheckForRequiredFields(data: seq<string>) returns (outcome: Outcome)
    ensures outcome == RequiredFieldsCheck(data)
  {
    var missing := CollectMissing(data, RequiredFields);
    var missingAlt := CollectMissing(data, RequiredFieldsAlt);
    if |missing| > 0 && |missingAlt| > 0 {
      outcome := Fail(MissingFields(Dedup(missing + missingAlt)));
    } else {
      outcome := Pass;
    }
  }

  /** A word list misses nothing exactly when every one of its words is in some fragment. */
  lemma MissingOfEmpty(data: seq<string>, words: seq<string>)
    ensures |MissingOf(data, words)| == 0 <==> forall i :: 0 <= i < |words| ==> SomeIncludes(data, words[i])
  {
    var r := MissingOf(data, words);
    if i :| 0 <= i < |words| && !SomeIncludes(data, words[i]) {
      assert Upper(words[i]) in r;
    }
    if |r| > 0 {
      assert r[0] in r;
    }
  }

  lemma AllIncludedSix(data: seq<string>, words: seq<string>)
    requires |words| == 6
    ensures (forall i :: 0 <= i < |words| ==> SomeIncludes(data, words[i])) <==>
      && SomeIncludes(data, words[0]) && SomeIncludes(data, words[1]) && SomeIncludes(data, words[2])
      && SomeIncludes(data, words[3]) && SomeIncludes(data, words[4]) && SomeIncludes(data, words[5])
  {
    if && SomeIncludes(data, words[0]) && SomeIncludes(data, words[1]) && SomeIncludes(data, words[2])
       && SomeIncludes(data, words[3]) && SomeIncludes(data, words[4]) && SomeIncludes(data, words[5])
    {
      forall i | 0 <= i < |words| ensures SomeIncludes(data, words[i]) {
        if i < 3 {
          assert i == 0 || i == 1 || i == 2;
        } else {
          assert i == 3 || i == 4 || i == 5;
        }
      }
    }
  }

  /** The required-field check fails exactly when one of the five common words is in no fragment, or when
      neither "offence" nor "infringement" is in any. */
  lemma RequiredFieldsFailIff(data: seq<string>)
    ensures RequiredFieldsCheck(data).Fail? <==>
      || !SomeIncludes(data, "competitor") || !SomeIncludes(data, "time")
      || !SomeIncludes(data, "fact") || !SomeIncludes(data, "decision")
      || !SomeIncludes(data, "reason")
      || (!SomeIncludes(data, "offence") && !SomeIncludes(data, "infringement"))
  {
    var w, v := RequiredFields, RequiredFieldsAlt;
    assert w[0] == v[0] == "competitor" && w[1] == v[1] == "time" && w[2] == v[2] == "fact";
    assert w[3] == "offence" && v[3] == "infringement";
    assert w[4] == v[4] == "decision" && w[5] == v[5] == "reason";
    BothMissingIff(data, w, v);
  }

  /** Two six-word lists that differ only in their fourth word both miss a word exactly when
      a shared word or both fourth words are missing. */
  lemma BothMissingIff(data: seq<string>, w: seq<string>, v: seq<string>)
    requires |w| == 6 && |v| == 6
    requires w[0] == v[0] && w[1] == v[1] && w[2] == v[2] && w[4] == v[4] && w[5] == v[5]
    ensures |MissingOf(data, w)| > 0 && |MissingOf(data, v)| > 0 <==>
      || !SomeIncludes(data, w[0]) || !SomeIncludes(data, w[1])
      || !SomeIncludes(data, w[2]) || !SomeIncludes(data, w[4])
      || !SomeIncludes(data, w[5])
      || (!SomeIncludes(data, w[3]) && !SomeIncludes(data, v[3]))
  {
    MissingOfEmpty(data, w);
    MissingOfEmpty(data, v);
    AllIncludedSix(data, w);
    AllIncludedSix(data, v);
  }

  /** The two spelling fixes applied to every fragment before anything else. */
  function FixSpelling(s: string): string {
    ReplaceAll(ReplaceAll(s, "infringment", "infringement"), "Infringment", "Infringement")
  }

  function FixAll(data: seq<string>): (r: seq<string>)
    ensures |r| == |data| && forall i :: 0 <= i < |data| ==> r[i] == FixSpelling(data[i])
  {
    seq(|data|, i requires 0 <= i < |data| => FixSpelling(data[i]))
  }

  // ---------------------------------------------------------------------------------------
  // The incident span cleanup.

  predicate IsTeam(s: string) { Lower(Trim(s)) == "team" }

  predicate IsManager(s: string) { Lower(Trim(s)) == "manager" }

  /** What the `map` callback of `cleanupIncidentDetails` makes of a fragment that does not
      throw, after the filter: a driver line becomes "Driver", an "offence" fragment
      "Infringement", "The Stewards" is dropped and every other fragment kept. */
  function Kept(s: string): seq<string> {
    if MatchesNoDriver(s) then ["Driver"]
    else if Lower(Trim(s)) == "offence" then ["Infringement"]
    else if s == "The Stewards" then []
    else [s]
  }

  /** The callback throws at fragment `i`: it is no driver line, it reads "team" and the
      next one reads "manager". */
  predicate Throws(arr: seq<string>, i: nat)
    requires i < |arr|
  {
    !MatchesNoDriver(arr[i]) && i + 1 != |arr| && IsTeam(arr[i]) && IsManager(arr[i + 1])
  }

  /** `cleanupIncidentDetails` from fragment `i` on: the mapped fragments, or the throw of
      the first fragment that throws. */
  function CleanupFrom(arr: seq<string>, i: nat): (r: Result<seq<string>>)
    requires i <= |arr|
    ensures r.Err? ==> r.error == NotADriverPenalty
    decreases |arr| - i
  {
    if i == |arr| then Ok([])
    else if Throws(arr, i) then Err(NotADriverPenalty)
    else
      var rest :- CleanupFrom(arr, i + 1);
      Ok(Kept(arr[i]) + rest)
  }

  function CleanupIncidentDetails(arr: seq<string>): Result<seq<string>> {
    CleanupFrom(arr, 0)
  }

  /** The relabelling of one fragment that is kept. */
  function Relabel(s: string): string {
    if MatchesNoDriver(s) then "Driver" else if Lower(Trim(s)) == "offence" then "Infringement" else s
  }

  /** `s.map(f)`. */
  function MapSeq<T, U>(s: seq<T>, f: T -> U): (r: seq<U>)
    ensures |r| == |s| && forall i :: 0 <= i < |s| ==> r[i] == f(s[i])
  {
    seq(|s|, i requires 0 <= i < |s| => f(s[i]))
  }

  lemma MapSeqAppend<T, U>(a: seq<T>, b: seq<T>, f: T -> U)
    ensures MapSeq(a + b, f) == MapSeq(a, f) + MapSeq(b, f)
  {
    var l, r := MapSeq(a + b, f), MapSeq(a, f) + MapSeq(b, f);
    forall k | 0 <= k < |l| ensures l[k] == r[k] {
      if k < |a| {
        assert (a + b)[k] == a[k];
      } else {
        assert (a + b)[k] == b[k - |a|];
      }
    }
  }

  function RelabelAll(s: seq<string>): seq<string> {
    MapSeq(s, Relabel)
  }

  /** Fragment `k` reads "team" and the next one "manager". */
  predicate TeamThenManager(arr: seq<string>, k: nat) {
    k + 1 < |arr| && IsTeam(arr[k]) && IsManager(arr[k + 1])
  }

  /** A "team" fragment followed by a "manager" one from `i` on. */
  predicate TeamManagerFrom(arr: seq<string>, i: nat) {
    exists k: nat :: i <= k < |arr| && TeamThenManager(arr, k)
  }

  /** A fragment the driver pattern matches is no "team" fragment. */
  lemma NoDriverIsNoTeam(s: string)
    requires MatchesNoDriver(s)
    ensures !IsTeam(s) && Lower(Trim(s)) != "offence"
  {
    NoDriverIsLong(s);
    assert |Lower(Trim(s))| >= 11;
  }

  /** "The Stewards" is neither a driver line, nor "team", nor "offence". */
  lemma StewardsIsPlain()
    ensures !MatchesNoDriver("The Stewards")
    ensures !IsTeam("The Stewards") && Lower(Trim("The Stewards")) != "offence"
  {
    StewardsNoDriver();
    TrimmedLongIsNoKeyword("The Stewards");
  }

  /** A trimmed fragment longer than seven characters reads neither "team" nor "offence". */
  lemma TrimmedLongIsNoKeyword(s: string)
    requires IsTrimmed(s) && |s| > 7
    ensures !IsTeam(s) && Lower(Trim(s)) != "offence"
  {
    TrimOfTrimmed(s);
    assert |Lower(Trim(s))| == |s|;
  }

  lemma StewardsNoDriver()
    ensures !MatchesNoDriver("The Stewards")
  {
    var st := "The Stewards";
    forall p: nat | p + 11 <= |st| ensures !NoDriverAt(st, p) {
      assert st[p + 3] != '/';
    }
  }

  /** The driver test that comes first never hides a throw. */
  lemma ThrowsIff(arr: seq<string>, i: nat)
    requires i < |arr|
    ensures Throws(arr, i) <==> TeamThenManager(arr, i)
  {
    if MatchesNoDriver(arr[i]) {
      NoDriverIsNoTeam(arr[i]);
    }
  }

  /** Every fragment that is kept is relabelled; "The Stewards" alone is dropped. */
  lemma KeptIsRelabelled(s: string)
    ensures Kept(s) == if s == "The Stewards" then [] else [Relabel(s)]
  {
    if s == "The Stewards" {
      StewardsIsPlain();
    }
  }

  lemma TeamManagerStep(arr: seq<string>, i: nat)
    requires i < |arr|
    ensures TeamManagerFrom(arr, i) <==> TeamThenManager(arr, i) || TeamManagerFrom(arr, i + 1)
  {
    if TeamManagerFrom(arr, i) && !TeamManagerFrom(arr, i + 1) {
      var k: nat :| i <= k < |arr| && TeamThenManager(arr, k);
      assert k == i;
    }
    if TeamManagerFrom(arr, i + 1) {
      var k: nat :| i + 1 <= k < |arr| && TeamThenManager(arr, k);
      assert TeamManagerFrom(arr, i);
    }
  }

  lemma CleanupErrStep(arr: seq<string>, i: nat)
    requires i < |arr|
    ensures CleanupFrom(arr, i).Err? <==> Throws(arr, i) || CleanupFrom(arr, i + 1).Err?
  {
  }

  /** A throw of the cleanup comes from a "team" fragment followed by a "manager" one. */
  lemma {:induction false} CleanupErrWitness(arr: seq<string>, i: nat) returns (k: nat)
    requires i < |arr| && CleanupFrom(arr, i).Err?
    ensures i <= k < |arr| && TeamThenManager(arr, k)
    decreases |arr| - i
  {
    CleanupErrStep(arr, i);
    if Throws(arr, i) {
      ThrowsIff(arr, i);
      k := i;
    } else {
      assert i + 1 < |arr|;
      k := CleanupErrWitness(arr, i + 1);
    }
  }

  /** Such a pair always makes the cleanup throw. */
  lemma {:induction false} TeamManagerMakesErr(arr: seq<string>, i: nat)
    requires i <= |arr| && TeamManagerFrom(arr, i)
    ensures CleanupFrom(arr, i).Err?
    decreases |arr| - i
  {
    TeamManagerStep(arr, i);
    ThrowsIff(arr, i);
    CleanupErrStep(arr, i);
    if !TeamThenManager(arr, i) {
      TeamManagerMakesErr(arr, i + 1);
    }
  }

  /** The cleanup throws exactly when a "team" fragment is followed by a "manager" one. */
  lemma CleanupErrIff(arr: seq<string>, i: nat)
    requires i <= |arr|
    ensures CleanupFrom(arr, i).Err? <==> TeamManagerFrom(arr, i)
  {
    if i < |arr| && CleanupFrom(arr, i).Err? {
      var k := CleanupErrWitness(arr, i);
    }
    if TeamManagerFrom(arr, i) {
      TeamManagerMakesErr(arr, i);
    }
  }

  lemma CleanupOkStep(arr: seq<string>, i: nat)
    requires i < |arr| && CleanupFrom(arr, i).Ok?
    ensures CleanupFrom(arr, i + 1).Ok?
    ensures CleanupFrom(arr, i).value == Kept(arr[i]) + CleanupFrom(arr, i + 1).value
  {
  }

  /** Otherwise the cleanup returns the relabelled fragments, in order, all "The Stewards"
      dropped. */
  lemma {:induction false} CleanupOkValue(arr: seq<string>, i: nat)
    requires i <= |arr|
    requires CleanupFrom(arr, i).Ok?
    ensures CleanupFrom(arr, i).value == RelabelAll(Without(arr[i..], "The Stewards"))
    decreases |arr| - i
  {
    if i < |arr| {
      CleanupOkStep(arr, i);
      CleanupOkValue(arr, i + 1);
      assert arr[i..] == [arr[i]] + arr[i + 1..];
      KeptThenRest(arr[i], arr[i + 1..]);
    }
  }

  /** What one fragment keeps, followed by the relabelled rest, is the relabelling of both. */
  lemma KeptThenRest(x: string, rest: seq<string>)
    ensures Kept(x) + RelabelAll(Without(rest, "The Stewards"))
         == RelabelAll(Without([x] + rest, "The Stewards"))
  {
    var s := [x] + rest;
    assert s[0] == x && s[1..] == rest;
    var w0: seq<string> := if x == "The Stewards" then [] else [x];
    var w := Without(rest, "The Stewards");
    assert Without(s, "The Stewards") == w0 + w;
    MapSeqAppend(w0, w, Relabel);
    KeptIsRelabelled(x);
    assert MapSeq(w0, Relabel) == Kept(x);
  }

  /** The cleaned span is never longer than the span and holds no "The Stewards". */
  lemma CleanupShrinks(arr: seq<string>)
    requires CleanupIncidentDetails(arr).Ok?
    ensures |CleanupIncidentDetails(arr).value| <= |arr|
    ensures "The Stewards" !in CleanupIncidentDetails(arr).value
  {
    CleanupOkValue(arr, 0);
    var w := Without(arr[0..], "The Stewards");
    var r := CleanupIncidentDetails(arr).value;
    assert r == RelabelAll(w);
    forall k | 0 <= k < |r| ensures r[k] != "The Stewards" {
      assert w[k] in w;
      RelabelNotStewards(w[k]);
    }
  }

  /** Relabelling never produces "The Stewards". */
  lemma RelabelNotStewards(s: string)
    requires s != "The Stewards"
    ensures Relabel(s) != "The Stewards"
  {
    assert "Infringement"[0] != "The Stewards"[0];
  }

  // ---------------------------------------------------------------------------------------
  // Splitting the fragments into sections.

  /** The "To" fix: a fifth fragment that is not empty is appended to the fourth, and the
      fifth is always dropped. */
  function HeaderFixed(ff: seq<string>): (r: seq<string>)
    ensures |ff| >= 5 ==> |r| == |ff| - 1
    ensures |ff| < 5 ==> r == ff
  {
    if |ff| < 4 then ff
    else ff[..3] + [if |ff| > 4 && ff[4] != "" then ff[3] + " " + ff[4] else ff[3]] + (if |ff| > 4 then ff[5..] else [])
  }

  /** Joining two neighbours with a space leaves the space-joined text as it was. */
  lemma JoinMerge(a: seq<string>, x: string, y: string, rest: seq<string>)
    requires |a| > 0
    ensures Join(a + [x + " " + y] + rest, " ") == Join(a + [x, y] + rest, " ")
  {
    JoinAppend(a, [x, y], " ");
    JoinAppend(a, [x + " " + y], " ");
    if |rest| > 0 {
      JoinAppend(a + [x, y], rest, " ");
      JoinAppend(a + [x + " " + y], rest, " ");
    } else {
      assert a + [x, y] + rest == a + [x, y];
      assert a + [x + " " + y] + rest == a + [x + " " + y];
    }
  }

  /** The "To" fix keeps the text of the header when it joins: the space-joined fragments
      read the same before and after. */
  lemma HeaderFixedJoin(ff: seq<string>)
    requires |ff| >= 5 && ff[4] != ""
    ensures Join(HeaderFixed(ff), " ") == Join(ff, " ")
  {
    var a, rest := ff[..3], ff[5..];
    SplitAroundPair(ff, 3);
    assert HeaderFixed(ff) == a + [ff[3] + " " + ff[4]] + rest;
    JoinMerge(a, ff[3], ff[4], rest);
  }

  /** A sequence is its head, the pair at `k`, and its tail. */
  lemma SplitAroundPair<T>(s: seq<T>, k: nat)
    requires k + 2 <= |s|
    ensures s == s[..k] + [s[k], s[k + 1]] + s[k + 2..]
  {
    var t := s[..k] + [s[k], s[k + 1]] + s[k + 2..];
    assert |t| == |s|;
    forall i | 0 <= i < |s| ensures t[i] == s[i] {
      if i < k {
        assert t[i] == s[..k][i];
      } else if i >= k + 2 {
        assert t[i] == s[k + 2..][i - k - 2];
      }
    }
  }

  /** The "From".."To"+2 fields, fixed, then the "Document".."Time"+1 fields. */
  function DocumentStrings(data: seq<string>): seq<string> {
    HeaderFixed(Slice(data, IndexOf(data, "From"), IndexOf(data, "To") + 3))
      + Slice(data, IndexOf(data, "Document"), IndexOf(data, "Time") + 2)
  }

  /** A headline first line: longer than twelve characters and mentioning the stewards. */
  predicate IsHeadlineLine(s: string) {
    |s| > 12 && Contains(Lower(s), "the stewards")
  }

  /** `data.indexOf(data.find(IsHeadlineLine))`: the first headline line, or -1. */
  function FindHeadline(data: seq<string>, i: nat): (r: int)
    ensures r == -1 || (i <= r < |data| && IsHeadlineLine(data[r]))
    ensures r >= 0 ==> forall k :: i <= k < r ==> !IsHeadlineLine(data[k])
    ensures r == -1 ==> forall k :: i <= k < |data| ==> !IsHeadlineLine(data[k])
    decreases |data| - i
  {
    if i >= |data| then -1 else if IsHeadlineLine(data[i]) then i else FindHeadline(data, i + 1)
  }

  /** The fragments longer than four characters. */
  function LongerThanFour(s: seq<string>): (r: seq<string>)
    ensures |r| <= |s| && forall x :: x in r ==> x in s && |x| > 4
  {
    if s == [] then [] else (if |s[0]| > 4 then [s[0]] else []) + LongerThanFour(s[1..])
  }

  /** The array `getWeekendDate` leaves after its three splices. */
  function KnownFieldsRemoved(data: seq<string>, headlineIndex: nat): seq<string> {
    var a := Spliced(data, headlineIndex, |data|);
    var b := Spliced(a, IndexOf(a, "From"), 5);
    Spliced(b, IndexOf(b, "Document"), 6)
  }

  /** The candidates for the weekend date: what is left, without "The Stewards" and
      fragments of four characters or fewer, and without its first element. */
  function WeekendCandidates(data: seq<string>, headlineIndex: nat): seq<string> {
    SliceFrom(LongerThanFour(Without(KnownFieldsRemoved(data, headlineIndex), "The Stewards")), 1)
  }

  /** `getWeekendDate`: the first candidate, or the first two joined when the first is
      shorter than twelve characters; a TypeError when there is none. */
  function WeekendDate(data: seq<string>, headlineIndex: nat): Result<string> {
    var misc := WeekendCandidates(data, headlineIndex);
    if |misc| == 0 then Err(UndefinedAccess)
    else if |misc[0]| < 12 then Ok(Trim(misc[0]) + " " + At(misc, 1))
    else Ok(misc[0])
  }

  /** Each splice leaves a subsequence. */
  lemma SplicedSubset(s: seq<string>, start: int, count: int)
    ensures forall x :: x in Spliced(s, start, count) ==> x in s
  {
    var a := Clamp(start, |s|);
    var d := if count < 0 then 0 else if count > |s| - a then |s| - a else count;
    forall x | x in Spliced(s, start, count) ensures x in s {
      if x in s[..a] {
      } else {
        assert x in s[a + d..];
      }
    }
  }

  /** The weekend candidates come from before the headline, are longer than four characters
      and are never "The Stewards". */
  lemma WeekendCandidatesFromHead(data: seq<string>, h: nat)
    requires h <= |data|
    ensures forall x :: x in WeekendCandidates(data, h) ==> x in data[..h] && |x| > 4 && x != "The Stewards"
  {
    KnownFieldsFromHead(data, h);
    var l := LongerThanFour(Without(KnownFieldsRemoved(data, h), "The Stewards"));
    SliceFromMembers(l, 1);
  }

  /** What the splices leave comes from before the headline. */
  lemma KnownFieldsFromHead(data: seq<string>, h: nat)
    requires h <= |data|
    ensures forall x :: x in KnownFieldsRemoved(data, h) ==> x in data[..h]
  {
    var a := Spliced(data, h, |data|);
    assert a == data[..h];
    var b := Spliced(a, IndexOf(a, "From"), 5);
    SplicedSubset(a, IndexOf(a, "From"), 5);
    SplicedSubset(b, IndexOf(b, "Document"), 6);
  }

  /** `slice(k)` keeps only elements that were there. */
  lemma SliceFromMembers<T>(s: seq<T>, k: int)
    ensures forall x :: x in SliceFrom(s, k) ==> x in s
  {
    var a := Clamp(k, |s|);
    if a < |s| {
      assert SliceFrom(s, k) == s[a..];
    }
  }

  /** The five sections `splitPDFData` returns. */
  datatype Sections = Sections(
    documentStrings: seq<string>,
    incidentStrings: seq<string>,
    headlineStrings: seq<string>,
    reasonAndStewardsStrings: seq<string>,
    weekendDate: string)

  /** The incident span: from two before the first "Competitor" up to the last "Reason". */
  function IncidentSpan(data: seq<string>): seq<string> {
    Slice(data, IndexOf(data, "Competitor") - 2, LastIndexOf(data, "Reason"))
  }

  /** The sections of the trimmed fragments, once the span is cleaned, the headline found
      and the weekend read. */
  function SectionsOf(data: seq<string>, incident: seq<string>, h: int, weekend: string): Sections {
    Sections(
      DocumentStrings(data),
      incident,
      Slice(data, h, IndexOf(data, "Competitor") - 2),
      Without(SliceFrom(data, LastIndexOf(data, "Reason") + 1), "The Stewards"),
      weekend)
  }

  /** What `splitPDFData` returns for the fragments `pdfData`, or the error it throws: the
      span cleanup's, a missing headline, or the weekend read past the end. */
  function SplitSections(pdfData: seq<string>): (r: Result<Sections>)
    ensures r.Err? ==> r.error in {NotADriverPenalty, HeadlineNotFound, UndefinedAccess}
  {
    var data := TrimAll(pdfData);
    var incident :- CleanupIncidentDetails(IncidentSpan(data));
    var h := FindHeadline(data, 0);
    if h < 0 then Err(HeadlineNotFound)
    else
      var weekend :- WeekendDate(data, h);
      Ok(SectionsOf(data, incident, h, weekend))
  }

  /** `getWeekendDate`, splicing its array in place. */
  method GetWeekendDate(data: seq<string>, headlineIndex: nat) returns (r: Result<string>)
    ensures r == WeekendDate(data, headlineIndex)
  {
    var removedKnownFields := new JsArray(data);
    removedKnownFields.Splice(headlineIndex, |removedKnownFields.items|);
    removedKnownFields.Splice(IndexOf(removedKnownFields.items, "From"), 5);
    removedKnownFields.Splice(IndexOf(removedKnownFields.items, "Document"), 6);
    var removedMisc := SliceFrom(LongerThanFour(Without(removedKnownFields.items, "The Stewards")), 1);
    if |removedMisc| == 0 {
      r := Err(UndefinedAccess);
    } else if |removedMisc[0]| < 12 {
      r := Ok(Trim(removedMisc[0]) + " " + At(removedMisc, 1));
    } else {
      r := Ok(removedMisc[0]);
    }
  }

  /** `splitPDFData`. */
  method SplitPdfData(pdfData: seq<string>) returns (r: Result<Sections>)
    ensures r == SplitSections(pdfData)
  {
    var data := TrimAll(pdfData);
    var incidentStrings := CleanupIncidentDetails(IncidentSpan(data));
    if incidentStrings.Err? {
      return Err(incidentStrings.error);
    }
    var headlineStartIndex := FindHeadline(data, 0);
    if headlineStartIndex < 0 {
      return Err(HeadlineNotFound);
    }
    var weekendDate := GetWeekendDate(data, headlineStartIndex);
    if weekendDate.Err? {
      return Err(weekendDate.error);
    }
    r := Ok(SectionsOf(data, incidentStrings.value, headlineStartIndex, weekendDate.value));
  }

  // ---------------------------------------------------------------------------------------
  // Assembling the record.

  /** A document field, or the text JavaScript makes of a missing one. */
  function Field(details: map<string, string>, key: string): string {
    if key in details then details[key] else "undefined"
  }

  /** `formatDate`: `toLocale` stands for `new Date(..).toLocaleString('en-GB', ..)`; its
      "DD/MM/YYYY, HH:MM" text is rearranged into "YYYY/MM/DD HH:MM". */
  function FormatDate(details: map<string, string>, toLocale: string -> string): string {
    var fullDate := toLocale(Field(details, "Date") + " " + Field(details, "Time"));
    var dateAndTime := Split(fullDate, ", ");
    var dayMonthYear := Split(dateAndTime[0], "/");
    At(dayMonthYear, 2) + "/" + At(dayMonthYear, 1) + "/" + dayMonthYear[0] + " " + At(dateAndTime, 1)
  }

  /** The search for a separator stops at the first place it starts. */
  lemma FindFirstSep(a: string, sep: string, b: string)
    requires |sep| > 0 && sep[0] !in a
    ensures FindFrom(a + sep + b, sep, 0) == |a|
  {
    var s := a + sep + b;
    assert OccursAt(s, sep, |a|) by {
      assert s[|a|..|a| + |sep|] == sep;
    }
    forall k | 0 <= k < |a| ensures !OccursAt(s, sep, k) {
      assert s[k] == a[k];
    }
  }

  /** Splitting at a separator whose first character the two sides lack. */
  lemma SplitTwo(a: string, sep: string, b: string)
    requires |sep| > 0 && sep[0] !in a && sep[0] !in b
    ensures Split(a + sep + b, sep) == [a, b]
  {
    FindFirstSep(a, sep, b);
    var s := a + sep + b;
    assert s[..|a|] == a;
    assert s[|a| + |sep|..] == b;
    forall k | 0 <= k <= |b| ensures !OccursAt(b, sep, k) {
    }
  }

  lemma SplitNone(b: string, sep: string)
    requires |sep| > 0 && sep[0] !in b
    ensures Split(b, sep) == [b]
  {
    forall k | 0 <= k <= |b| ensures !OccursAt(b, sep, k) {
    }
  }

  /** Splitting at a separator whose first character none of the three parts holds. */
  lemma SplitThree(a: string, b: string, c: string, sep: string)
    requires |sep| > 0 && sep[0] !in a && sep[0] !in b && sep[0] !in c
    ensures Split(a + sep + b + sep + c, sep) == [a, b, c]
  {
    var bc := b + sep + c;
    assert a + sep + b + sep + c == a + sep + bc;
    FindFirstSep(a, sep, bc);
    var s := a + sep + bc;
    assert s[..|a|] == a;
    assert s[|a| + |sep|..] == bc;
    SplitTwo(b, sep, c);
  }

  /** When the formatter returns "DD/MM/YYYY, HH:MM" the document date reads "YYYY/MM/DD HH:MM". */
  lemma FormatDateRearranges(details: map<string, string>, toLocale: string -> string,
                             day: string, month: string, year: string, time: string)
    requires '/' !in day && '/' !in month && '/' !in year && ',' !in year && ',' !in day && ',' !in month
    requires ',' !in time
    requires toLocale(Field(details, "Date") + " " + Field(details, "Time")) ==
      day + "/" + month + "/" + year + ", " + time
    ensures FormatDate(details, toLocale) == year + "/" + month + "/" + day + " " + time
  {
    var date := day + "/" + month + "/" + year;
    assert ',' !in date;
    SplitTwo(date, ", ", time);
    SplitThree(day, month, year, "/");
  }

  /** `formatDocumentDetails`. */
  method FormatDocumentDetails(data: seq<string>) returns (m: map<string, string>)
    ensures m == Pairs(data, (s: string) => s, "", map[], 0)
  {
    m := PairUp(data, (s: string) => s, "", map[]);
  }

  /** `formatIncidentDetails`: the headline, then the grouped fragments paired. */
  function IncidentDetails(groups: seq<Value>, headlineStrings: seq<string>): map<string, Value> {
    Pairs(groups, KeyOf, Str(""), map["Headline" := Str(Join(headlineStrings, " "))], 0)
  }

  /** `Session || 'N/A'`: a missing or empty session becomes "N/A". */
  function SessionOrDefault(info: map<string, Value>): (v: Value)
    ensures v != Str("")
    ensures "Session" in info && info["Session"] != Str("") ==> v == info["Session"]
    ensures "Session" !in info || info["Session"] == Str("") ==> v == Str("N/A")
  {
    if "Session" in info && info["Session"] != Str("") then info["Session"] else Str("N/A")
  }

  /** The incident information as returned: the session defaulted, the reason overwritten,
      every other entry as paired. */
  function WithSessionAndReason(info: map<string, Value>, reason: string): (r: map<string, Value>)
    ensures "Session" in r && r["Session"] != Str("")
    ensures "Session" in info && info["Session"] != Str("") ==> r["Session"] == info["Session"]
    ensures "Session" !in info || info["Session"] == Str("") ==> r["Session"] == Str("N/A")
    ensures "Reason" in r && r["Reason"] == Str(reason)
    ensures forall k :: k in info && k != "Session" && k != "Reason" ==> k in r && r[k] == info[k]
    ensures r.Keys == info.Keys + {"Session", "Reason"}
  {
    info["Session" := SessionOrDefault(info)]["Reason" := Str(reason)]
  }

  /** The reason paragraph: every fragment after the last "Reason" but the stewards. The
      source's end index `N - N * 2` is `-N`. */
  function ReasonContents(ras: seq<string>, series: string): string {
    Join(Slice(ras, 0, -(StewardCount(series) as int)), " ")
  }

  /** The stewards: the last three or four fragments after the last "Reason". */
  function Stewards(ras: seq<string>, series: string): seq<string> {
    SliceFrom(ras, -(StewardCount(series) as int))
  }

  /** The reason fragments followed by the stewards give back the tail exactly, and the
      stewards are its last `min(N, |tail|)` fragments. */
  lemma StewardsPartition(ras: seq<string>, series: string)
    ensures Slice(ras, 0, -(StewardCount(series) as int)) + Stewards(ras, series) == ras
    ensures var n := StewardCount(series);
      |Stewards(ras, series)| == (if n < |ras| then n else |ras|)
      && Stewards(ras, series) == ras[|ras| - |Stewards(ras, series)|..]
  {
    var n := StewardCount(series);
    SliceSplit(ras, -(n as int));
    SliceLast(ras, n);
  }

  /** The record built from the sections: what follows `splitPDFData` in
      `createPenaltyDocument`, with the throw of `getPenaltyType` when there is no Decision. */
  function BuildRecord(href: string, sections: Sections, series: string,
                       toLocale: string -> string): (r: Result<TransformedPdfData>)
    requires Finishes(sections.incidentStrings, "Infringement", 0)
    ensures r.Err? ==> r.error == UndefinedAccess
  {
    var groups :- GroupsOf(sections.incidentStrings, "Infringement", 0);
    var incidentDetails := IncidentDetails(groups, sections.headlineStrings);
    var decision :- DecisionHead(incidentDetails);
    Ok(RecordOf(href, sections, incidentDetails, decision, series, toLocale))
  }

  /** The record once the incident details and the first Decision line are known. */
  function RecordOf(href: string, sections: Sections, incidentDetails: map<string, Value>,
                    decision: string, series: string, toLocale: string -> string): TransformedPdfData {
    var filename := CleanFilename(href);
    var grandPrixName := GrandPrixName(filename);
    var documentDetails := Pairs(sections.documentStrings, (s: string) => s, "", map[], 0);
    TransformedPdfData(
      series,
      DocumentType(filename, grandPrixName),
      filename,
      FormatDate(documentDetails, toLocale),
      grandPrixName,
      Classify(decision),
      sections.weekendDate,
      IncidentTitle(filename, grandPrixName),
      documentDetails,
      WithSessionAndReason(incidentDetails, ReasonContents(sections.reasonAndStewardsStrings, series)),
      Stewards(sections.reasonAndStewardsStrings, series))
  }

  /** A built record is the one made from the grouped incident details and their first
      Decision line. */
  lemma BuildRecordIs(href: string, sections: Sections, series: string, toLocale: string -> string)
    requires Finishes(sections.incidentStrings, "Infringement", 0)
    requires BuildRecord(href, sections, series, toLocale).Ok?
    ensures GroupsOf(sections.incidentStrings, "Infringement", 0).Ok?
    ensures var info := IncidentDetails(GroupsOf(sections.incidentStrings, "Infringement", 0).value, sections.headlineStrings);
      && DecisionHead(info).Ok?
      && BuildRecord(href, sections, series, toLocale).value
         == RecordOf(href, sections, info, DecisionHead(info).value, series, toLocale)
  {
  }

  /** The record `createPenaltyDocument` returns, or the error it throws. `Halts` is what the
      source needs of its input for the grouping loops to finish. */
  function PenaltyDocument(href: string, pdfDataArray: seq<string>, series: string,
                           toLocale: string -> string): Result<TransformedPdfData>
    requires Halts(pdfDataArray)
  {
    var fixed := FixAll(pdfDataArray);
    var check := RequiredFieldsCheck(fixed);
    if check.Fail? then Err(check.error)
    else
      var sections :- SplitSections(fixed);
      BuildRecord(href, sections, series, toLocale)
  }

  /** The grouping loops of the transform finish on these fragments. */
  predicate Halts(pdfDataArray: seq<string>) {
    var fixed := FixAll(pdfDataArray);
    RequiredFieldsCheck(fixed).Pass? && SplitSections(fixed).Ok? ==>
      Finishes(SplitSections(fixed).value.incidentStrings, "Infringement", 0)
  }

  /** `createPenaltyDocument`. */
  method CreatePenaltyDocument(href: string, pdfDataArray: seq<string>, series: string,
                               toLocale: string -> string) returns (r: Result<TransformedPdfData>)
    requires Halts(pdfDataArray)
    ensures r == PenaltyDocument(href, pdfDataArray, series, toLocale)
  {
    var fixed := FixAll(pdfDataArray);
    var check := CheckForRequiredFields(fixed);
    if check.Fail? {
      return Err(check.error);
    }
    var filename := CleanFilename(href);
    var grandPrixName := GrandPrixName(filename);
    var docType := DocumentType(filename, grandPrixName);
    var incidentTitle := IncidentTitle(filename, grandPrixName);
    var sections := SplitPdfData(fixed);
    if sections.Err? {
      return Err(sections.error);
    }
    var s := sections.value;
    var documentDetails := FormatDocumentDetails(s.documentStrings);
    var groups := SplitIncidentStrings(s.incidentStrings, "Infringement");
    if groups.Err? {
      return Err(groups.error);
    }
    var incidentDetails := PairUp(groups.value, KeyOf, Str(""), map["Headline" := Str(Join(s.headlineStrings, " "))]);
    var stewards := Stewards(s.reasonAndStewardsStrings, series);
    var reasonContents := ReasonContents(s.reasonAndStewardsStrings, series);
    var decision := DecisionHead(incidentDetails);
    if decision.Err? {
      return Err(decision.error);
    }
    var penaltyType := ScanPenalty(decision.value);
    var docDate := FormatDate(documentDetails, toLocale);
    r := Ok(TransformedPdfData(
      series, docType, filename, docDate, grandPrixName, penaltyType, s.weekendDate,
      incidentTitle, documentDetails,
      WithSessionAndReason(incidentDetails, reasonContents),
      stewards));
  }

  // ---------------------------------------------------------------------------------------
  // Properties of the whole transform.

  /** The transform throws the missing-fields error exactly when the required-field check
      fails on the spelling-fixed fragments, before anything else can go wrong. */
  lemma PenaltyDocumentChecksFirst(href: string, pdfDataArray: seq<string>, series: string,
                                   toLocale: string -> string)
    requires Halts(pdfDataArray)
    ensures var r := PenaltyDocument(href, pdfDataArray, series, toLocale);
      (r.Err? && r.error.MissingFields?) <==> RequiredFieldsCheck(FixAll(pdfDataArray)).Fail?
  {
  }

  /** A Fact list that no "Infringement" label ends makes the transform throw its
      TypeError, once the earlier checks have passed. */
  lemma PenaltyDocumentThrowsOnOpenList(href: string, pdfDataArray: seq<string>, series: string,
                                        toLocale: string -> string)
    requires Halts(pdfDataArray) && RequiredFieldsCheck(FixAll(pdfDataArray)).Pass?
    requires SplitSections(FixAll(pdfDataArray)).Ok?
    requires GroupsOf(SplitSections(FixAll(pdfDataArray)).value.incidentStrings, "Infringement", 0).Err?
    ensures PenaltyDocument(href, pdfDataArray, series, toLocale) == Err(UndefinedAccess)
  {
  }

  /** A built record keeps the series, has a document type among the four and a cleaned
      name: no underscore, lower case, trimmed. */
  lemma BuildRecordNames(href: string, sections: Sections, series: string, toLocale: string -> string)
    requires Finishes(sections.incidentStrings, "Infringement", 0)
    requires BuildRecord(href, sections, series, toLocale).Ok?
    ensures var d := BuildRecord(href, sections, series, toLocale).value;
      && d.series == series
      && d.docType in {"offence", "decision", "infringement", "wrong doc type"}
      && '_' !in d.docName && IsLowered(d.docName) && IsTrimmed(d.docName)
  {
    BuildRecordFields(href, sections, series, toLocale);
    CleanFilenameShape(href);
  }

  /** The series, the name and the type of a record come from the call and the href alone. */
  lemma BuildRecordFields(href: string, sections: Sections, series: string, toLocale: string -> string)
    requires Finishes(sections.incidentStrings, "Infringement", 0)
    requires BuildRecord(href, sections, series, toLocale).Ok?
    ensures var d, filename := BuildRecord(href, sections, series, toLocale).value, CleanFilename(href);
      && d.series == series && d.docName == filename
      && d.docType == DocumentType(filename, GrandPrixName(filename))
  {
    BuildRecordIs(href, sections, series, toLocale);
  }

  /** Its penalty type is one of the twelve categories. */
  lemma BuildRecordPenalty(href: string, sections: Sections, series: string, toLocale: string -> string)
    requires Finishes(sections.incidentStrings, "Infringement", 0)
    requires BuildRecord(href, sections, series, toLocale).Ok?
    ensures BuildRecord(href, sections, series, toLocale).value.penaltyType in Categories
  {
    BuildRecordIs(href, sections, series, toLocale);
  }

  /** Its incident information has a session that is never empty and the reason paragraph:
      the post-"Reason" fragments without the stewards, joined by spaces. */
  lemma BuildRecordIncidentInfo(href: string, sections: Sections, series: string, toLocale: string -> string)
    requires Finishes(sections.incidentStrings, "Infringement", 0)
    requires BuildRecord(href, sections, series, toLocale).Ok?
    ensures var info := BuildRecord(href, sections, series, toLocale).value.incidentInfo;
      && "Session" in info && info["Session"] != Str("")
      && "Reason" in info
      && info["Reason"] == Str(Join(Slice(sections.reasonAndStewardsStrings, 0, -(StewardCount(series) as int)), " "))
  {
    BuildRecordIs(href, sections, series, toLocale);
  }

  /** Its stewards are what the reason paragraph leaves of the post-"Reason" fragments. */
  lemma BuildRecordStewards(href: string, sections: Sections, series: string, toLocale: string -> string)
    requires Finishes(sections.incidentStrings, "Infringement", 0)
    requires BuildRecord(href, sections, series, toLocale).Ok?
    ensures var ras := sections.reasonAndStewardsStrings;
      Slice(ras, 0, -(StewardCount(series) as int)) + BuildRecord(href, sections, series, toLocale).value.stewards == ras
  {
    BuildRecordIs(href, sections, series, toLocale);
    assert BuildRecord(href, sections, series, toLocale).value.stewards == Stewards(sections.reasonAndStewardsStrings, series);
    StewardsPartition(sections.reasonAndStewardsStrings, series);
  }

  /** A record the transform returns is the one built from the sections of the
      spelling-fixed fragments, once the required-field check has passed. */
  lemma PenaltyDocumentIsBuilt(href: string, pdfDataArray: seq<string>, series: string,
                               toLocale: string -> string)
    requires Halts(pdfDataArray) && PenaltyDocument(href, pdfDataArray, series, toLocale).Ok?
    ensures RequiredFieldsCheck(FixAll(pdfDataArray)).Pass? && SplitSections(FixAll(pdfDataArray)).Ok?
    ensures PenaltyDocument(href, pdfDataArray, series, toLocale) ==
      BuildRecord(href, SplitSections(FixAll(pdfDataArray)).value, series, toLocale)
  {
  }

  /** The sections never carry "The Stewards" among the post-"Reason" fragments. */
  lemma SectionsWithoutStewardsLine(pdfData: seq<string>)
    requires SplitSections(pdfData).Ok?
    ensures "The Stewards" !in SplitSections(pdfData).value.reasonAndStewardsStrings
  {
  }

  /** So the stewards of a returned record never include "The Stewards". */
  lemma PenaltyDocumentStewards(href: string, pdfDataArray: seq<string>, series: string,
                                toLocale: string -> string)
    requires Halts(pdfDataArray) && PenaltyDocument(href, pdfDataArray, series, toLocale).Ok?
    ensures "The Stewards" !in PenaltyDocument(href, pdfDataArray, series, toLocale).value.stewards
  {
    PenaltyDocumentIsBuilt(href, pdfDataArray, series, toLocale);
    var sections := SplitSections(FixAll(pdfDataArray)).value;
    SectionsWithoutStewardsLine(FixAll(pdfDataArray));
    BuildRecordStewards(href, sections, series, toLocale);
    var ras := sections.reasonAndStewardsStrings;
    var d := BuildRecord(href, sections, series, toLocale).value;
    forall x | x in d.stewards ensures x in ras {
      assert x in Slice(ras, 0, -(StewardCount(series) as int)) + d.stewards;
    }
  }
}
