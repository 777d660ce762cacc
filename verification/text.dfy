/** The string operations the service relies on: ASCII case folding (as SQL
    ILIKE does it), substring search, Python's `str.split(sep)`, `sep.join(xs)`
    and `str.split()` on whitespace. */
module Text {

  import opened Wrappers

  // ---------------------------------------------------------------------
  // Case folding

  function LowerChar(c: char): char
  {
    if 'A' <= c <= 'Z' then (c as int + 32) as char else c
  }

  /** Folds every ASCII capital to its small letter and leaves every other
      character alone. */
  function Lower(s: string): (r: string)
    ensures |r| == |s|
    ensures forall i :: 0 <= i < |s| ==> r[i] == LowerChar(s[i])
  {
    if s == [] then [] else [LowerChar(s[0])] + Lower(s[1..])
  }

  // ---------------------------------------------------------------------
  // Substrings

  /** `pat` occurs in `s` starting at index `j`. */
  predicate OccursAt(s: string, pat: string, j: int)
  {
    0 <= j && j + |pat| <= |s| && s[j..j + |pat|] == pat
  }

  /** The first index at or after `from` where `pat` occurs in `s`. */
  function FindFrom(s: string, pat: string, from: nat): (r: Option<nat>)
    ensures r.Some? ==> from <= r.value && OccursAt(s, pat, r.value)
    ensures r.Some? ==> forall j :: from <= j < r.value ==> !OccursAt(s, pat, j)
    ensures r.None? ==> forall j :: from <= j ==> !OccursAt(s, pat, j)
    decreases |s| - from
  {
    if from + |pat| > |s| then None
    else if s[from..from + |pat|] == pat then Some(from)
    else FindFrom(s, pat, from + 1)
  }

  /** The leftmost occurrence of `pat` in `s`, as Python's `str.find`. */
  function FindFirst(s: string, pat: string): (r: Option<nat>)
    ensures r.Some? ==> OccursAt(s, pat, r.value)
    ensures r.Some? ==> forall j :: 0 <= j < r.value ==> !OccursAt(s, pat, j)
    ensures r.None? <==> forall j :: !OccursAt(s, pat, j)
  {
    FindFrom(s, pat, 0)
  }

  /** `pat` is a substring of `s`; the empty string is a substring of every string. */
  predicate Contains(s: string, pat: string): (b: bool)
    ensures b <==> exists j :: OccursAt(s, pat, j)
    ensures pat == [] ==> b
  {
    assert OccursAt(s, [], 0) by { assert s[0..0] == []; }
    FindFirst(s, pat).Some?
  }

  // ---------------------------------------------------------------------
  // Python's str.split(sep) and sep.join(xs)

  /** The pieces of `s` between the non-overlapping occurrences of `sep`,
      found left to right, as Python's `s.split(sep)`. */
  function Split(s: string, sep: string): (ps: seq<string>)
    requires sep != []
    ensures |ps| >= 1
    decreases |s|
  {
    match FindFirst(s, sep)
    case None => [s]
    case Some(i) => [s[..i]] + Split(s[i + |sep|..], sep)
  }

  /** One step of Split: the piece before the first separator, then the
      pieces of what follows it. */
  lemma SplitStep(s: string, sep: string, i: nat)
    requires sep != [] && FindFirst(s, sep) == Some(i)
    ensures i + |sep| <= |s|
    ensures Split(s, sep) == [s[..i]] + Split(s[i + |sep|..], sep)
  {
  }

  /** What Python's `s.split(c)[0]` gives: the text before the first `c`,
      or all of `s` when it has none. */
  function FirstPiece(s: string, c: char): (p: string)
    ensures |p| <= |s| && p == s[..|p|]
    ensures c !in p
    ensures |p| < |s| ==> s[|p|] == c
  {
    SingleCharOccurrence(s, c);
    Split(s, [c])[0]
  }

  /** What Python's `s.split(c)[-1]` gives: the text after the last `c`,
      or all of `s` when it has none. */
  function LastPiece(s: string, c: char): (p: string)
    ensures |p| <= |s| && p == s[|s| - |p|..]
    ensures c !in p
    ensures |p| < |s| ==> s[|s| - |p| - 1] == c
  {
    LastPieceFacts(s, c);
    var ps := Split(s, [c]);
    ps[|ps| - 1]
  }

  /** A one-character pattern occurs exactly where that character stands. */
  lemma SingleCharOccurrence(s: string, c: char)
    ensures forall j :: 0 <= j < |s| ==> (OccursAt(s, [c], j) <==> s[j] == c)
  {
    forall j | 0 <= j < |s| ensures s[j..j + 1] == [s[j]] {
    }
  }

  /** The facts LastPiece promises, about the last piece Split returns. */
  predicate IsLastPiece(s: string, c: char, p: string)
  {
    && |p| <= |s| && p == s[|s| - |p|..]
    && c !in p
    && (|p| < |s| ==> s[|s| - |p| - 1] == c)
  }

  lemma {:induction false} LastPieceFacts(s: string, c: char)
    ensures var ps := Split(s, [c]); IsLastPiece(s, c, ps[|ps| - 1])
    decreases |s|, 1
  {
    var f := FindFirst(s, [c]);
    if f.None? {
      SingleCharOccurrence(s, c);
      assert Split(s, [c]) == [s];
      assert s[|s| - |s|..] == s;
    } else {
      var i := f.value;
      assert OccursAt(s, [c], i);
      assert s[i..i + 1][0] == s[i];
      SplitStep(s, [c], i);
      LastPieceAfterFirst(s, c, i);
    }
  }

  lemma {:induction false} LastPieceAfterFirst(s: string, c: char, i: nat)
    requires i < |s| && s[i] == c
    requires Split(s, [c]) == [s[..i]] + Split(s[i + 1..], [c])
    ensures var ps := Split(s, [c]); IsLastPiece(s, c, ps[|ps| - 1])
    decreases |s|, 0
  {
    var rest := s[i + 1..];
    LastPieceFacts(rest, c);
    var pr := Split(rest, [c]);
    var p := pr[|pr| - 1];
    LastPieceInSuffix(s, c, i, p);
    var ps := Split(s, [c]);
    assert ps[|ps| - 1] == p;
  }

  /** A last piece of the text after index `i`, where `s[i]` is the
      separator, is a last piece of `s`. */
  lemma LastPieceInSuffix(s: string, c: char, i: nat, p: string)
    requires i < |s| && s[i] == c
    requires IsLastPiece(s[i + 1..], c, p)
    ensures IsLastPiece(s, c, p)
  {
    var rest := s[i + 1..];
    assert s[|s| - |p|..] == rest[|rest| - |p|..];
    if |p| < |rest| {
      assert s[|s| - |p| - 1] == rest[|rest| - |p| - 1];
    }
  }

  /** The elements of `xs` with `sep` between each two neighbours, as
      Python's `sep.join(xs)`. */
  function Join(xs: seq<string>, sep: string): (r: string)
    ensures |xs| == 0 ==> r == []
    ensures |xs| >= 1 ==> |xs[0]| <= |r| && r[..|xs[0]|] == xs[0]
    ensures |xs| >= 2 ==> |xs[0]| + |sep| <= |r| && r[|xs[0]|..|xs[0]| + |sep|] == sep
  {
    if |xs| == 0 then ""
    else if |xs| == 1 then xs[0]
    else xs[0] + sep + Join(xs[1..], sep)
  }

  /** Joining the pieces of `s.split(sep)` with `sep` gives `s` back. */
  lemma {:induction false} SplitJoinRoundTrip(s: string, sep: string)
    requires sep != []
    ensures Join(Split(s, sep), sep) == s
    decreases |s|
  {
    match FindFirst(s, sep)
    case None =>
    case Some(i) =>
      SplitStep(s, sep, i);
      var rest := s[i + |sep|..];
      SplitJoinRoundTrip(rest, sep);
      var xs := Split(s, sep);
      assert xs[0] == s[..i] && xs[1..] == Split(rest, sep);
      assert s[i..i + |sep|] == sep;
      assert s == s[..i] + sep + rest;
  }

  /** When `x` does not contain `sep`, the first piece of `x + sep + rest` is `x`. */
  lemma {:induction false} SplitFirstPiece(x: string, sep: char, rest: string)
    requires sep !in x
    ensures Split(x + [sep] + rest, [sep])[0] == x
    ensures Split(x + [sep] + rest, [sep]) == [x] + Split(rest, [sep])
  {
    var s := x + [sep] + rest;
    assert OccursAt(s, [sep], |x|);
    forall j | 0 <= j < |x| ensures !OccursAt(s, [sep], j) {
      assert s[j] == x[j];
    }
    var f := FindFirst(s, [sep]);
    assert f == Some(|x|);
    assert s[..|x|] == x;
    assert s[|x| + 1..] == rest;
  }

  /** When `code` holds no `sep`, the last piece of `path + sep + code` is `code`. */
  lemma {:induction false} SplitLastPiece(path: string, sep: char, code: string)
    requires sep !in code
    ensures var ps := Split(path + [sep] + code, [sep]); ps[|ps| - 1] == code
    decreases |path|
  {
    var s := path + [sep] + code;
    assert OccursAt(s, [sep], |path|);
    var f := FindFirst(s, [sep]);
    var i := f.value;
    assert i <= |path|;
    if i == |path| {
      assert s[i + 1..] == code;
      NoOccurrence(code, sep);
    } else {
      assert s[i + 1..] == path[i + 1..] + [sep] + code;
      SplitLastPiece(path[i + 1..], sep, code);
    }
  }

  /** A string with no `sep` in it splits into itself alone. */
  lemma NoOccurrence(s: string, sep: char)
    requires sep !in s
    ensures Split(s, [sep]) == [s]
  {
    forall j | 0 <= j < |s| ensures !OccursAt(s, [sep], j) {
      assert s[j..j + 1][0] == s[j];
    }
  }

  /** The author separator used when several names are joined into one column. */
  const AuthorSeparator: string := ", "

  /** The leftmost ", " in `x + ", " + rest` is the one after `x` when `x` holds
      none of its own: ", " cannot start on the last character of `x`, since
      its first character is not its second. */
  lemma FirstSeparatorAfter(x: string, rest: string)
    requires !Contains(x, AuthorSeparator)
    ensures FindFirst(x + AuthorSeparator + rest, AuthorSeparator) == Some(|x|)
  {
    var s := x + AuthorSeparator + rest;
    assert OccursAt(s, AuthorSeparator, |x|) by {
      assert s[|x|..|x| + 2] == AuthorSeparator;
    }
    forall j | 0 <= j < |x| ensures !OccursAt(s, AuthorSeparator, j) {
      if j + 2 <= |x| {
        NotInsideName(x, rest, j);
      } else {
        assert s[j + 1] == ',';
        assert s[j..j + 2][1] == s[j + 1];
        assert AuthorSeparator[1] == ' ';
      }
    }
  }

  lemma NotInsideName(x: string, rest: string, j: nat)
    requires !Contains(x, AuthorSeparator) && j + 2 <= |x|
    ensures !OccursAt(x + AuthorSeparator + rest, AuthorSeparator, j)
  {
    var s := x + AuthorSeparator + rest;
    assert s[j..j + 2] == x[j..j + 2];
    assert !OccursAt(x, AuthorSeparator, j);
  }

  /** Joining names with ", " and splitting the result on ", " gives the
      names back, as long as there is at least one and none contains ", ". */
  lemma {:induction false} JoinSplitRoundTrip(xs: seq<string>)
    requires |xs| >= 1
    requires forall k :: 0 <= k < |xs| ==> !Contains(xs[k], AuthorSeparator)
    ensures Split(Join(xs, AuthorSeparator), AuthorSeparator) == xs
  {
    if |xs| == 1 {
      assert !Contains(xs[0], AuthorSeparator);
      assert FindFirst(xs[0], AuthorSeparator).None?;
    } else {
      var x := xs[0];
      var rest := Join(xs[1..], AuthorSeparator);
      var s := x + AuthorSeparator + rest;
      assert Join(xs, AuthorSeparator) == s;
      FirstSeparatorAfter(x, rest);
      SplitStep(s, AuthorSeparator, |x|);
      assert s[..|x|] == x;
      assert s[|x| + 2..] == rest;
      JoinSplitRoundTrip(xs[1..]);
      assert xs == [x] + xs[1..];
    }
  }

  // ---------------------------------------------------------------------
  // Python's str.split() with no separator: runs of whitespace separate
  // words and leading or trailing whitespace yields no empty word.

  /** The ASCII characters Python's `str.isspace` accepts: tab, line feed,
      vertical tab, form feed, carriage return, the four separators 0x1C to
      0x1F, and space. */
  predicate IsSpace(c: char)
  {
    9 <= c as int <= 13 || 28 <= c as int <= 32
  }

  predicate NoSpace(s: string)
  {
    forall i :: 0 <= i < |s| ==> !IsSpace(s[i])
  }

  predicate AllSpace(s: string)
  {
    forall i :: 0 <= i < |s| ==> IsSpace(s[i])
  }

  /** The length of the longest prefix of `s` without whitespace. */
  function WordLength(s: string): (n: nat)
    ensures n <= |s| && NoSpace(s[..n])
    ensures n < |s| ==> IsSpace(s[n])
  {
    if s == [] || IsSpace(s[0]) then 0
    else
      var m := WordLength(s[1..]);
      assert s[..m + 1] == [s[0]] + s[1..][..m];
      1 + m
  }

  lemma WordLengthUnique(s: string, n: nat)
    requires n <= |s| && NoSpace(s[..n])
    requires n < |s| ==> IsSpace(s[n])
    ensures WordLength(s) == n
  {
    var m := WordLength(s);
    assert forall i :: 0 <= i < n ==> s[..n][i] == s[i];
    assert forall i :: 0 <= i < m ==> s[..m][i] == s[i];
  }

  /** The words of `s`, as Python's `s.split()`. */
  function Tokens(s: string): (ws: seq<string>)
    ensures forall k :: 0 <= k < |ws| ==> ws[k] != [] && NoSpace(ws[k])
    ensures ws == [] <==> AllSpace(s)
    decreases |s|
  {
    if s == [] then []
    else if IsSpace(s[0]) then
      var ws := Tokens(s[1..]);
      assert AllSpace(s[1..]) ==> AllSpace(s) by {
        if AllSpace(s[1..]) {
          forall i | 0 <= i < |s| ensures IsSpace(s[i]) {
            if i > 0 { assert s[i] == s[1..][i - 1]; }
          }
        }
      }
      ws
    else
      var n := WordLength(s);
      [s[..n]] + Tokens(s[n..])
  }

  /** A word ends no later than the first whitespace character. */
  lemma {:induction false} WordEndsByFirstSpace(s: string, k: nat)
    requires k < |s| && IsSpace(s[k])
    ensures WordLength(s) <= k
  {
    if !IsSpace(s[0]) {
      WordEndsByFirstSpace(s[1..], k - 1);
    }
  }

  /** Appending a space and a word to a string appends that word to its words. */
  lemma {:induction false} TokensAppendWord(pre: string, w: string)
    requires w != [] && NoSpace(w)
    ensures Tokens(pre + " " + w) == Tokens(pre) + [w]
    decreases |pre|
  {
    var s := pre + " " + w;
    if pre == [] {
      assert s[1..] == w;
      WordLengthUnique(w, |w|);
      assert w[..|w|] == w;
      assert w[|w|..] == [];
    } else if IsSpace(pre[0]) {
      assert s[1..] == pre[1..] + " " + w;
      TokensAppendWord(pre[1..], w);
    } else {
      var n := WordLength(s);
      WordEndsByFirstSpace(s, |pre|);
      assert s[..n] == pre[..n];
      WordLengthUnique(pre, n);
      assert n > 0;
      assert s[n..] == pre[n..] + " " + w;
      TokensAppendWord(pre[n..], w);
    }
  }

  /** `w` is the last word of `s`, ending at index `e`: a non-empty run of
      non-whitespace characters with only whitespace after it, that starts
      `s` or follows a whitespace character. */
  predicate IsLastWordAt(s: string, w: string, e: nat)
  {
    && w != [] && NoSpace(w)
    && |w| <= e <= |s| && s[e - |w|..e] == w
    && AllSpace(s[e..])
    && (e > |w| ==> IsSpace(s[e - |w| - 1]))
  }

  /** `w` is the last word of `s`. */
  predicate IsLastWord(s: string, w: string)
  {
    exists e: nat | e <= |s| :: IsLastWordAt(s, w, e)
  }

  /** A string has at most one last word. */
  lemma LastWordUnique(s: string, w1: string, e1: nat, w2: string, e2: nat)
    requires IsLastWordAt(s, w1, e1) && IsLastWordAt(s, w2, e2)
    ensures e1 == e2 && w1 == w2
  {
    assert s[e1 - |w1|..e1][|w1| - 1] == s[e1 - 1];
    assert s[e2 - |w2|..e2][|w2| - 1] == s[e2 - 1];
    assert forall i :: e1 <= i < |s| ==> s[e1..][i - e1] == s[i];
    assert forall i :: e2 <= i < |s| ==> s[e2..][i - e2] == s[i];
    assert e1 == e2;
    assert forall i :: 0 <= i < |w1| ==> w1[i] == s[e1 - |w1| + i];
    assert forall i :: 0 <= i < |w2| ==> w2[i] == s[e2 - |w2| + i];
  }

  /** A non-empty word `y` after whitespace `sp` (which may be empty only
      when nothing comes before it) and before whitespace `trail` is the
      last word of the whole. */
  lemma LastWordOfParts(pre: string, sp: string, y: string, trail: string)
    requires y != [] && NoSpace(y) && AllSpace(sp) && AllSpace(trail)
    requires pre != [] ==> sp != []
    ensures !AllSpace(pre + sp + y + trail)
    ensures IsLastWordAt(pre + sp + y + trail, y, |pre| + |sp| + |y|)
  {
    var s := pre + sp + y + trail;
    var k := |pre| + |sp|;
    assert s[k + |y|..] == trail;
    assert s[k..k + |y|] == y;
    assert s[k] == y[0];
    if k > 0 {
      assert s[k - 1] == sp[|sp| - 1];
    }
  }

  /** The last word of a suffix `s[k..]` is the last word of `s` when it does
      not start the suffix, or the suffix follows whitespace. */
  lemma LastWordShift(s: string, k: nat, w: string, e: nat)
    requires k <= |s| && IsLastWordAt(s[k..], w, e)
    requires e > |w| || (k > 0 && IsSpace(s[k - 1]))
    ensures IsLastWordAt(s, w, k + e)
  {
    assert s[k + e - |w|..k + e] == s[k..][e - |w|..e];
    assert s[k + e..] == s[k..][e..];
    if e > |w| {
      assert s[k + e - |w| - 1] == s[k..][e - |w| - 1];
    }
  }

  /** In a string that starts with whitespace the last word does not start
      the string. */
  lemma LastWordAfterLeadingSpace(r: string, w: string, e: nat)
    requires r != [] && IsSpace(r[0]) && IsLastWordAt(r, w, e)
    ensures e > |w|
  {
    assert r[e - |w|..e][0] == r[e - |w|];
  }

  /** A non-empty whitespace-free prefix followed only by whitespace is
      the last word. */
  lemma LastWordWhole(s: string, n: nat)
    requires 0 < n <= |s| && NoSpace(s[..n]) && AllSpace(s[n..])
    ensures IsLastWordAt(s, s[..n], n)
  {
    assert s[0..n] == s[..n];
  }

  /** `s.split()` has a last element and it is the last word of `s`. */
  predicate LastTokenIsLast(s: string)
  {
    Tokens(s) != [] && IsLastWord(s, Tokens(s)[|Tokens(s)| - 1])
  }

  /** Whitespace in front of a string does not change its last word. */
  lemma LastTokenSpaceCase(s: string)
    requires !AllSpace(s) && IsSpace(s[0])
    requires !AllSpace(s[1..]) ==> LastTokenIsLast(s[1..])
    ensures LastTokenIsLast(s)
  {
    var ws, wr := Tokens(s), Tokens(s[1..]);
    assert ws == wr;
    var e :| IsLastWordAt(s[1..], wr[|wr| - 1], e);
    LastWordShift(s, 1, wr[|wr| - 1], e);
  }

  /** A word followed only by whitespace is the last word. */
  lemma LastTokenWordAlone(s: string, n: nat)
    requires s != [] && !IsSpace(s[0]) && n == WordLength(s) && AllSpace(s[n..])
    ensures LastTokenIsLast(s)
  {
    var ws := Tokens(s);
    assert ws == [s[..n]];
    LastWordWhole(s, n);
  }

  /** A word in front of a string that is not blank leaves its last word. */
  lemma LastTokenWordThenRest(s: string, n: nat)
    requires s != [] && !IsSpace(s[0]) && n == WordLength(s)
    requires !AllSpace(s[n..]) && LastTokenIsLast(s[n..])
    ensures LastTokenIsLast(s)
  {
    var ws, wr := Tokens(s), Tokens(s[n..]);
    assert ws == [s[..n]] + wr;
    var w := wr[|wr| - 1];
    assert ws[|ws| - 1] == w;
    var e :| IsLastWordAt(s[n..], w, e);
    LastWordAfterLeadingSpace(s[n..], w, e);
    LastWordShift(s, n, w, e);
  }

  /** `s.split()[-1]` is the last word of `s`. */
  lemma {:induction false} LastTokenIsLastWord(s: string)
    requires !AllSpace(s)
    ensures LastTokenIsLast(s)
    decreases |s|
  {
    if IsSpace(s[0]) {
      if !AllSpace(s[1..]) {
        LastTokenIsLastWord(s[1..]);
      }
      LastTokenSpaceCase(s);
    } else {
      var n := WordLength(s);
      if AllSpace(s[n..]) {
        LastTokenWordAlone(s, n);
      } else {
        LastTokenIsLastWord(s[n..]);
        LastTokenWordThenRest(s, n);
      }
    }
  }

  /** Python's `s.split()[-1]`, defined when `s` is not blank: the last word. */
  function LastToken(s: string): (w: string)
    requires !AllSpace(s)
    ensures IsLastWord(s, w)
  {
    LastTokenIsLastWord(s);
    var ws := Tokens(s);
    ws[|ws| - 1]
  }
}
