/** The JavaScript string and array primitives the document transforms are built from,
    with their ECMAScript semantics: `trim`, ASCII `toLowerCase`, `includes`, `indexOf`,
    `lastIndexOf`, `slice` with negative indices, `splice`, `replace` and `replaceAll`
    with a string pattern, `split` and `join`. */
module JsText {

  /** The line terminators of ECMAScript: LF, CR, LINE SEPARATOR, PARAGRAPH SEPARATOR. */
  predicate IsLineTerminator(c: char) {
    c == '\n' || c == '\r' || c == '\U{2028}' || c == '\U{2029}'
  }

  /** WhiteSpace and LineTerminator code points: what `trim` strips and what `\s` matches. */
  predicate IsWhite(c: char) {
    || c == '\t' || c == '\U{000B}' || c == '\U{000C}' || c == ' ' || c == '\U{00A0}'
    || c == '\U{FEFF}' || c == '\U{1680}' || ('\U{2000}' <= c <= '\U{200A}')
    || c == '\U{202F}' || c == '\U{205F}' || c == '\U{3000}'
    || IsLineTerminator(c)
  }

  function TrimStart(s: string): (r: string)
    ensures |r| <= |s| && r == s[|s| - |r|..]
    ensures r == [] || !IsWhite(r[0])
    ensures forall i :: 0 <= i < |s| - |r| ==> IsWhite(s[i])
  {
    if |s| > 0 && IsWhite(s[0]) then TrimStart(s[1..]) else s
  }

  function TrimEnd(s: string): (r: string)
    ensures |r| <= |s| && r == s[..|r|]
    ensures r == [] || !IsWhite(r[|r| - 1])
    ensures forall i :: |r| <= i < |s| ==> IsWhite(s[i])
  {
    if |s| > 0 && IsWhite(s[|s| - 1]) then TrimEnd(s[..|s| - 1]) else s
  }

  /** `String.prototype.trim`. */
  function Trim(s: string): string {
    TrimEnd(TrimStart(s))
  }

  /** A string `trim` leaves as it is. */
  predicate IsTrimmed(s: string) {
    s == [] || (!IsWhite(s[0]) && !IsWhite(s[|s| - 1]))
  }

  /** `trim` returns the contiguous part of its input between the leading and the
      trailing white space, and that part has no white space at either end. */
  lemma TrimBounds(s: string) returns (a: nat, b: nat)
    ensures a <= b <= |s| && Trim(s) == s[a..b]
    ensures forall i :: 0 <= i < a ==> IsWhite(s[i])
    ensures forall i :: b <= i < |s| ==> IsWhite(s[i])
    ensures IsTrimmed(Trim(s))
  {
    var t := TrimStart(s);
    a := |s| - |t|;
    b := a + |TrimEnd(t)|;
    assert TrimEnd(t) == t[..b - a];
    assert t[..b - a] == s[a..b];
    forall i | b <= i < |s| ensures IsWhite(s[i]) {
      assert s[i] == t[i - a];
    }
  }

  /** `trim` never lengthens and keeps only characters of its input. */
  lemma TrimShape(s: string)
    ensures IsTrimmed(Trim(s)) && |Trim(s)| <= |s|
    ensures forall c :: c in Trim(s) ==> c in s
  {
    var a, b := TrimBounds(s);
    var t := Trim(s);
    forall c | c in t ensures c in s {
      var i :| 0 <= i < |t| && t[i] == c;
      assert t[i] == s[a + i];
    }
  }

  lemma TrimOfTrimmed(s: string)
    requires IsTrimmed(s)
    ensures Trim(s) == s
  {
  }

  /** `trim` keeps exactly the part from the first to the last character that is not white. */
  lemma TrimAt(s: string, a: nat, b: nat)
    requires a < b <= |s| && !IsWhite(s[a]) && !IsWhite(s[b - 1])
    requires forall i :: 0 <= i < a ==> IsWhite(s[i])
    requires forall i :: b <= i < |s| ==> IsWhite(s[i])
    ensures Trim(s) == s[a..b]
  {
    var a', b' := TrimBounds(s);
    assert a' == a && b' == b;
  }

  /** The text after " - " once `trim` and the dash are gone. */
  lemma TrimDash(t: string)
    requires |t| > 0 && IsTrimmed(t)
    ensures Trim(" - " + t) == (" - " + t)[1..]
    ensures Trim((" - " + t)[2..]) == t
  {
    var s := " - " + t;
    assert s[|s| - 1] == t[|t| - 1];
    TrimAt(s, 1, |s|);
    assert s[2..][1..] == t;
    TrimAt(s[2..], 1, |s| - 2);
  }

  /** A word that starts a text and is not white at either end survives `trim`. */
  lemma TrimKeepsWord(v: string, w: string)
    requires |w| > 0 && OccursAt(v, w, 0) && !IsWhite(w[0]) && !IsWhite(w[|w| - 1])
    ensures OccursAt(Trim(v), w, 0)
  {
    var a, b := TrimBounds(v);
    assert v[0] == w[0];
    assert v[|w| - 1] == w[|w| - 1];
    assert a == 0;
    assert b >= |w|;
    assert Trim(v)[0..|w|] == v[0..|w|];
  }

  function LowerChar(c: char): char {
    if 'A' <= c <= 'Z' then (c as int + 32) as char else c
  }

  function UpperChar(c: char): char {
    if 'a' <= c <= 'z' then (c as int - 32) as char else c
  }

  /** `toLowerCase` on the ASCII letters; other characters are kept. */
  function Lower(s: string): (r: string)
    ensures |r| == |s|
    ensures forall i :: 0 <= i < |s| ==> r[i] == LowerChar(s[i])
  {
    if s == [] then [] else [LowerChar(s[0])] + Lower(s[1..])
  }

  /** `toUpperCase` on the ASCII letters; other characters are kept. */
  function Upper(s: string): (r: string)
    ensures |r| == |s|
    ensures forall i :: 0 <= i < |s| ==> r[i] == UpperChar(s[i])
  {
    if s == [] then [] else [UpperChar(s[0])] + Upper(s[1..])
  }

  /** `sub` occurs in `s` at position `i`. */
  predicate OccursAt(s: string, sub: string, i: nat) {
    i + |sub| <= |s| && s[i..i + |sub|] == sub
  }

  /** `s.indexOf(sub, i)` for a string `sub`: the first position from `i` on, or -1. */
  function FindFrom(s: string, sub: string, i: nat): (r: int)
    requires i <= |s|
    ensures r == -1 || (i <= r <= |s| && OccursAt(s, sub, r))
    ensures r >= 0 ==> forall k :: i <= k < r ==> !OccursAt(s, sub, k)
    ensures r == -1 ==> forall k :: i <= k <= |s| ==> !OccursAt(s, sub, k)
    decreases |s| - i
  {
    if OccursAt(s, sub, i) then i else if i == |s| then -1 else FindFrom(s, sub, i + 1)
  }

  /** `s.includes(sub)`. */
  predicate Contains(s: string, sub: string) {
    FindFrom(s, sub, 0) >= 0
  }

  lemma ContainsAt(s: string, sub: string, i: nat)
    requires OccursAt(s, sub, i)
    ensures Contains(s, sub)
  {
  }

  /** A text found in a part of `s` is found in `s`. */
  lemma ContainsWithin(s: string, t: string, off: nat, sub: string)
    requires off + |t| <= |s| && t == s[off..off + |t|] && Contains(t, sub)
    ensures Contains(s, sub)
  {
    var p := FindFrom(t, sub, 0);
    var a, b := s[off + p..off + p + |sub|], t[p..p + |sub|];
    assert a == b by {
      forall k | 0 <= k < |sub| ensures a[k] == b[k] {
        assert t[p + k] == s[off + p + k];
      }
    }
    ContainsAt(s, sub, off + p);
  }

  /** `data.some((str) => str.toLowerCase().includes(word))`. */
  predicate SomeIncludes(data: seq<string>, word: string) {
    exists i :: 0 <= i < |data| && Contains(Lower(data[i]), word)
  }

  /** `s.indexOf(x, i)` on an array. */
  function IndexOfFrom<T(==)>(s: seq<T>, x: T, i: nat): (r: int)
    ensures r == -1 || (i <= r < |s| && s[r] == x)
    ensures r >= 0 ==> forall k :: i <= k < r ==> s[k] != x
    ensures r == -1 ==> forall k :: i <= k < |s| ==> s[k] != x
    decreases |s| - i
  {
    if i >= |s| then -1 else if s[i] == x then i else IndexOfFrom(s, x, i + 1)
  }

  /** `s.indexOf(x)` on an array or, for a one-character `x`, on a string. */
  function IndexOf<T(==)>(s: seq<T>, x: T): int {
    IndexOfFrom(s, x, 0)
  }

  /** `s.lastIndexOf(x)`. */
  function LastIndexOf<T(==)>(s: seq<T>, x: T): (r: int)
    ensures -1 <= r < |s|
    ensures r >= 0 ==> s[r] == x
    ensures forall k :: r < k < |s| ==> s[k] != x
  {
    if |s| == 0 then -1 else if s[|s| - 1] == x then |s| - 1 else LastIndexOf(s[..|s| - 1], x)
  }

  /** How `slice` and `splice` turn a possibly negative index into a position. */
  function Clamp(k: int, n: nat): (r: nat)
    ensures r <= n
  {
    if k < 0 then (if n + k < 0 then 0 else n + k) else if k > n then n else k
  }

  /** `s.slice(start, end)`. */
  function Slice<T>(s: seq<T>, start: int, end: int): seq<T> {
    var a, b := Clamp(start, |s|), Clamp(end, |s|);
    if a < b then s[a..b] else []
  }

  /** `s.slice(start)`. */
  function SliceFrom<T>(s: seq<T>, start: int): seq<T> {
    Slice(s, start, |s|)
  }

  /** Whatever the cut index, `slice(0, k)` and `slice(k)` partition the sequence. */
  lemma SliceSplit<T>(s: seq<T>, k: int)
    ensures Slice(s, 0, k) + SliceFrom(s, k) == s
  {
    var c := Clamp(k, |s|);
    if 0 < c {
      assert Slice(s, 0, k) == s[..c];
    } else {
      assert Slice(s, 0, k) == [];
    }
    if c < |s| {
      assert SliceFrom(s, k) == s[c..];
    } else {
      assert SliceFrom(s, k) == [];
    }
  }

  /** `slice(-n)` keeps the last `min(n, |s|)` elements. */
  lemma SliceLast<T>(s: seq<T>, n: nat)
    requires n > 0
    ensures |SliceFrom(s, -(n as int))| == if n < |s| then n else |s|
    ensures SliceFrom(s, -(n as int)) == s[|s| - |SliceFrom(s, -(n as int))|..]
  {
  }

  /** The last `n` elements of `a + b` are those of `b` when `b` has at least `n`. */
  lemma SliceLastAppend<T>(a: seq<T>, b: seq<T>, n: nat)
    requires 0 < n <= |b|
    ensures SliceFrom(a + b, -(n as int)) == SliceFrom(b, -(n as int))
  {
    assert SliceFrom(a + b, -(n as int)) == (a + b)[|a| + |b| - n..];
    assert (a + b)[|a| + |b| - n..] == b[|b| - n..];
  }

  /** Cutting at any index splits a filtered sequence into the filtered pieces. */
  lemma WithoutSplit(s: seq<string>, l: nat, x: string)
    requires l <= |s|
    ensures Without(s, x) == Without(s[..l], x) + Without(SliceFrom(s, l), x)
  {
    assert SliceFrom(s, l) == s[l..];
    assert s == s[..l] + s[l..];
    WithoutAppend(s[..l], s[l..], x);
  }

  /** The array left by `s.splice(start, deleteCount)`. */
  function Spliced<T>(s: seq<T>, start: int, deleteCount: int): seq<T> {
    var a := Clamp(start, |s|);
    var d := if deleteCount < 0 then 0 else if deleteCount > |s| - a then |s| - a else deleteCount;
    s[..a] + s[a + d..]
  }

  /** A JavaScript array of strings that is changed in place. */
  class JsArray {
    var items: seq<string>

    constructor (items: seq<string>)
      ensures this.items == items
    {
      this.items := items;
    }

    /** `splice(start, deleteCount)`, dropping the removed elements. */
    method Splice(start: int, deleteCount: int)
      modifies this
      ensures items == Spliced(old(items), start, deleteCount)
    {
      items := Spliced(items, start, deleteCount);
    }
  }

  /** `s.replace(pat, rep)` for a string pattern: the first occurrence only. */
  function ReplaceFirst(s: string, pat: string, rep: string): string {
    var k := FindFrom(s, pat, 0);
    if k < 0 then s else s[..k] + rep + s[k + |pat|..]
  }

  /** `s.replaceAll(pat, rep)` for a non-empty string pattern: left to right, no overlaps. */
  function ReplaceAll(s: string, pat: string, rep: string): string
    requires |pat| > 0
    decreases |s|
  {
    if |s| < |pat| then s
    else if s[..|pat|] == pat then rep + ReplaceAll(s[|pat|..], pat, rep)
    else [s[0]] + ReplaceAll(s[1..], pat, rep)
  }

  /** Replacing a character distributes over concatenation. */
  lemma {:induction false} ReplaceAllAppend(a: string, b: string, c: char, rep: string)
    ensures ReplaceAll(a + b, [c], rep) == ReplaceAll(a, [c], rep) + ReplaceAll(b, [c], rep)
    decreases |a|
  {
    if a == [] {
      assert a + b == b;
    } else {
      assert (a + b)[..1] == a[..1];
      assert (a + b)[1..] == a[1..] + b;
      ReplaceAllAppend(a[1..], b, c, rep);
    }
  }

  /** A text without the character is left as it is. */
  lemma {:induction false} ReplaceAllAbsent(s: string, c: char, rep: string)
    requires c !in s
    ensures ReplaceAll(s, [c], rep) == s
    decreases |s|
  {
    if s != [] {
      assert s[..1] == [s[0]];
      ReplaceAllAbsent(s[1..], c, rep);
      assert [s[0]] + s[1..] == s;
    }
  }

  /** Replacing every occurrence of a character by another leaves none of the first. */
  lemma {:induction false} ReplaceAllCharGone(s: string, a: char, b: char)
    requires a != b
    ensures a !in ReplaceAll(s, [a], [b])
    ensures |ReplaceAll(s, [a], [b])| == |s|
    decreases |s|
  {
    if |s| >= 1 {
      ReplaceAllCharGone(s[1..], a, b);
    }
  }

  /** `parts.join(sep)`. */
  function Join(parts: seq<string>, sep: string): string {
    if |parts| == 0 then ""
    else if |parts| == 1 then parts[0]
    else parts[0] + sep + Join(parts[1..], sep)
  }

  lemma {:induction false} JoinAppend(a: seq<string>, b: seq<string>, sep: string)
    requires |a| > 0 && |b| > 0
    ensures Join(a + b, sep) == Join(a, sep) + sep + Join(b, sep)
  {
    if |a| == 1 {
      assert (a + b)[1..] == b;
    } else {
      assert (a + b)[1..] == a[1..] + b;
      JoinAppend(a[1..], b, sep);
    }
  }

  /** `s.split(sep)` for a non-empty separator. */
  function Split(s: string, sep: string): (r: seq<string>)
    requires |sep| > 0
    ensures |r| > 0
    decreases |s|
  {
    var k := FindFrom(s, sep, 0);
    if k < 0 then [s] else [s[..k]] + Split(s[k + |sep|..], sep)
  }

  /** The element at `i`, or the text JavaScript makes of `undefined` when it is absent. */
  function At(s: seq<string>, i: nat): string {
    if i < |s| then s[i] else "undefined"
  }

  /** `s.charAt(s.length - 1) === c`. */
  predicate EndsWith(s: string, c: char) {
    |s| > 0 && s[|s| - 1] == c
  }

  /** `s.filter((str) => str !== x)`. */
  function Without(s: seq<string>, x: string): (r: seq<string>)
    ensures |r| <= |s| && x !in r
    ensures forall y :: y in r ==> y in s
  {
    if s == [] then [] else (if s[0] == x then [] else [s[0]]) + Without(s[1..], x)
  }

  lemma {:induction false} WithoutAppend(a: seq<string>, b: seq<string>, x: string)
    ensures Without(a + b, x) == Without(a, x) + Without(b, x)
  {
    if a != [] {
      assert (a + b)[1..] == a[1..] + b;
      WithoutAppend(a[1..], b, x);
    } else {
      assert a + b == b;
    }
  }

  /** `s.map((str) => str.trim())`. */
  function TrimAll(s: seq<string>): (r: seq<string>)
    ensures |r| == |s| && forall i :: 0 <= i < |s| ==> r[i] == Trim(s[i])
  {
    seq(|s|, i requires 0 <= i < |s| => Trim(s[i]))
  }
}
