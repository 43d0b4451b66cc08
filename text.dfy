/**
  The JavaScript string built-ins the VibeScript compiler and watcher rely on,
  written out over `seq<char>`: the `\s` and `\w` character classes, `trim`,
  `split`, `join`, `includes`/`indexOf`, and the `$`-template expansion that
  `String.prototype.replace` applies to its replacement string.
*/
module Text {

  datatype Option<+T> = None | Some(value: T)

  /** `\s` in a JavaScript regular expression; also the set `trim` removes. */
  predicate IsSpace(c: char) {
    || c == '\t' || c == '\n' || c == '\U{B}' || c == '\U{C}' || c == '\r' || c == ' '
    || c == '\U{A0}' || c == '\U{1680}' || ('\U{2000}' <= c <= '\U{200A}')
    || c == '\U{2028}' || c == '\U{2029}' || c == '\U{202F}' || c == '\U{205F}'
    || c == '\U{3000}' || c == '\U{FEFF}'
  }

  /** `\w` in a JavaScript regular expression without the `u` flag. */
  predicate IsWordChar(c: char) {
    ('a' <= c <= 'z') || ('A' <= c <= 'Z') || ('0' <= c <= '9') || c == '_'
  }

  /** A string `\w+` matches in full. */
  predicate IsWord(s: string) {
    |s| > 0 && forall i :: 0 <= i < |s| ==> IsWordChar(s[i])
  }

  predicate AllSpace(s: string) {
    forall i :: 0 <= i < |s| ==> IsSpace(s[i])
  }

  /** `pat` occurs in `s` starting at index `i`. */
  predicate StartsAt(s: string, i: nat, pat: string) {
    i + |pat| <= |s| && forall k :: 0 <= k < |pat| ==> s[i + k] == pat[k]
  }

  /** `pat` occurs somewhere in `s`. */
  predicate Contains(s: string, pat: string) {
    exists i: nat | i <= |s| :: StartsAt(s, i, pat)
  }

  /** `s.indexOf(pat, from)`: the least index at or after `from` where `pat` occurs. */
  function FindFrom(s: string, pat: string, from: nat): (r: Option<nat>)
    ensures r.Some? ==> from <= r.value && StartsAt(s, r.value, pat)
    ensures r.Some? ==> forall k: nat :: from <= k < r.value ==> !StartsAt(s, k, pat)
    ensures r.None? ==> forall k: nat :: from <= k ==> !StartsAt(s, k, pat)
    decreases |s| - from
  {
    if from + |pat| > |s| then None
    else if StartsAt(s, from, pat) then Some(from)
    else FindFrom(s, pat, from + 1)
  }

  /** `s.indexOf(c, from)` for a single character. */
  function NextChar(s: string, from: nat, c: char): (r: Option<nat>)
    requires from <= |s|
    ensures r.Some? ==> from <= r.value < |s| && s[r.value] == c
    ensures r.Some? ==> forall k :: from <= k < r.value ==> s[k] != c
    ensures r.None? ==> forall k :: from <= k < |s| ==> s[k] != c
    decreases |s| - from
  {
    if from == |s| then None else if s[from] == c then Some(from) else NextChar(s, from + 1, c)
  }

  /** The first `c` after `from` is the one `NextChar` finds. */
  lemma NextCharIs(s: string, from: nat, e: nat, c: char)
    requires from <= e < |s| && s[e] == c && c !in s[from..e]
    ensures NextChar(s, from, c) == Some(e)
  {
    assert forall k :: from <= k < e ==> s[k] == s[from..e][k - from];
  }

  /** `s.includes(pat)`: the search from index 0 finds `pat`. */
  predicate Includes(s: string, pat: string) {
    FindFrom(s, pat, 0).Some?
  }

  /** `includes` finds exactly the occurrences there are. */
  lemma ContainsFind(s: string, pat: string)
    ensures Contains(s, pat) <==> FindFrom(s, pat, 0).Some?
  {
    if Contains(s, pat) {
      var i: nat :| i <= |s| && StartsAt(s, i, pat);
      assert 0 <= i;
    }
  }

  /** Whatever surrounds an occurrence, the occurrence is still there. */
  lemma ContainsInContext(a: string, m: string, b: string, pat: string)
    requires Contains(m, pat)
    ensures Contains(a + m + b, pat)
  {
    var i: nat :| i <= |m| && StartsAt(m, i, pat);
    assert (a + m + b)[|a| + i..|a| + i + |pat|] == m[i..i + |pat|];
    assert StartsAt(a + m + b, |a| + i, pat);
  }

  /** An occurrence inside a slice is an occurrence in the whole string. */
  lemma StartsAtInSlice(s: string, lo: nat, hi: nat, k: nat, pat: string)
    requires lo <= hi <= |s| && StartsAt(s[lo..hi], k, pat)
    ensures StartsAt(s, lo + k, pat)
  {
    var t := s[lo..hi];
    var u := t[k..k + |pat|];
    assert forall j :: 0 <= j < |pat| ==> u[j] == s[lo + k + j];
    assert t[k..k + |pat|] == s[lo + k..lo + k + |pat|];
  }

  /** No occurrence where the first character differs. */
  lemma NotAtWithoutFirst(s: string, i: nat, pat: string)
    requires |pat| > 0 && (i < |s| ==> s[i] != pat[0])
    ensures !StartsAt(s, i, pat)
  {
    if i < |s| { assert s[i + 0] != pat[0]; }
  }

  /** An occurrence is the slice of `s` it covers. */
  lemma StartsAtSlice(s: string, i: nat, pat: string)
    ensures StartsAt(s, i, pat) <==> i + |pat| <= |s| && s[i..i + |pat|] == pat
  {
    if i + |pat| <= |s| && s[i..i + |pat|] == pat {
      forall k | 0 <= k < |pat| ensures s[i + k] == pat[k] {
        assert s[i..i + |pat|][k] == s[i + k];
      }
    }
  }

  /** An occurrence of `x + y` is an occurrence of `x` followed by one of `y`. */
  lemma StartsAtConcat(s: string, i: nat, x: string, y: string)
    ensures StartsAt(s, i, x + y) <==> StartsAt(s, i, x) && StartsAt(s, i + |x|, y)
  {
    if StartsAt(s, i, x + y) {
      forall k | 0 <= k < |x| ensures s[i + k] == x[k] {
        assert (x + y)[k] == x[k];
      }
      forall k | 0 <= k < |y| ensures s[i + |x| + k] == y[k] {
        assert (x + y)[|x| + k] == y[k];
      }
    }
    if StartsAt(s, i, x) && StartsAt(s, i + |x|, y) {
      forall k | 0 <= k < |x + y| ensures s[i + k] == (x + y)[k] {
        if k >= |x| {
          assert y[k - |x|] == s[i + |x| + (k - |x|)];
        }
      }
    }
  }

  /** Every character of `Trim(s)` is a character of `s`. */
  lemma TrimKeepsChars(s: string)
    ensures forall c :: c in Trim(s) ==> c in s
  {
    var w1, w2 := TrimSplit(s);
    forall c | c in Trim(s) ensures c in s {
      var i :| 0 <= i < |Trim(s)| && Trim(s)[i] == c;
      assert s[|w1| + i] == c;
    }
  }

  /** ASCII letters of `s` at `i` equal the lower-case pattern `pat` up to case,
      every other character exactly: the `i` flag of a regular expression, and
      also `toLowerCase()` compared with a lower-case ASCII literal. */
  predicate StartsAtIgnoringCase(s: string, i: nat, pat: string) {
    i + |pat| <= |s| && forall k :: 0 <= k < |pat| ==> SameLetter(s[i + k], pat[k])
  }

  predicate SameLetter(c: char, p: char) {
    c == p || ('a' <= p <= 'z' && c as int == p as int - 32)
  }

  predicate EndsWith(s: string, suffix: string) {
    |suffix| <= |s| && s[|s| - |suffix|..] == suffix
  }

  // ---------------------------------------------------------------------
  // String.prototype.trim

  /** No white space at either end. */
  predicate Trimmed(t: string) {
    t == [] || (!IsSpace(t[0]) && !IsSpace(t[|t| - 1]))
  }

  /** Index of the first non-space character at or after `i`, or |s|. */
  function SkipSpaces(s: string, i: nat): (j: nat)
    requires i <= |s|
    ensures i <= j <= |s|
    ensures AllSpace(s[i..j]) && (j == |s| || !IsSpace(s[j]))
    decreases |s| - i
  {
    if i == |s| || !IsSpace(s[i]) then i else SkipSpaces(s, i + 1)
  }

  /** Index just after the last non-space character of `s[lo..hi]`, or `lo`. */
  function SkipSpacesBack(s: string, lo: nat, hi: nat): (j: nat)
    requires lo <= hi <= |s|
    ensures lo <= j <= hi
    ensures AllSpace(s[j..hi]) && (j == lo || !IsSpace(s[j - 1]))
    decreases hi - lo
  {
    if hi == lo || !IsSpace(s[hi - 1]) then hi
    else
      var j := SkipSpacesBack(s, lo, hi - 1);
      assert s[j..hi] == s[j..hi - 1] + [s[hi - 1]];
      j
  }

  /** `s.trim()`: `s` without its leading and trailing white space. */
  function Trim(s: string): (r: string)
    ensures Trimmed(r)
    ensures exists a: nat :: StartsAt(s, a, r) && AllSpace(s[..a]) && AllSpace(s[a + |r|..])
  {
    var a := SkipSpaces(s, 0);
    var b := SkipSpacesBack(s, a, |s|);
    assert StartsAt(s, a, s[a..b]);
    assert s[..a] == s[0..a] && s[a + (b - a)..] == s[b..|s|];
    s[a..b]
  }

  /** Trim is characterised by its result alone: whatever white space
      surrounds a trimmed string, trimming gives that string back. */
  lemma TrimOf(w1: string, t: string, w2: string)
    requires AllSpace(w1) && AllSpace(w2) && Trimmed(t)
    ensures Trim(w1 + t + w2) == t
  {
    var s := w1 + t + w2;
    var a := SkipSpaces(s, 0);
    if t == [] {
      assert AllSpace(s);
      assert a == |s|;
    } else {
      assert s[|w1|] == t[0];
      assert a == |w1|;
      var b := SkipSpacesBack(s, a, |s|);
      var e := |w1| + |t|;
      assert s[e - 1] == t[|t| - 1];
      assert b == e;
      assert s[a..b] == t;
    }
  }

  lemma TrimIdempotent(s: string)
    ensures Trim(Trim(s)) == Trim(s)
  {
    TrimOf([], Trim(s), []);
    assert [] + Trim(s) + [] == Trim(s);
  }

  /** The decomposition `s == w1 + Trim(s) + w2` as a witness. */
  lemma TrimSplit(s: string) returns (w1: string, w2: string)
    ensures AllSpace(w1) && AllSpace(w2) && s == w1 + Trim(s) + w2
  {
    var t := Trim(s);
    var a: nat :| StartsAt(s, a, t) && AllSpace(s[..a]) && AllSpace(s[a + |t|..]);
    w1, w2 := s[..a], s[a + |t|..];
    StartsAtSlice(s, a, t);
    SliceInThree(s, a, a + |t|);
  }

  /** Cutting a string at two places and gluing the pieces gives it back. */
  lemma SliceInThree(s: string, a: nat, b: nat)
    requires a <= b <= |s|
    ensures s == s[..a] + s[a..b] + s[b..]
  {
  }

  lemma AllSpaceSingle(c: char)
    requires IsSpace(c)
    ensures AllSpace([c])
  {
  }

  lemma AllSpaceConcat(x: string, y: string)
    requires AllSpace(x) && AllSpace(y)
    ensures AllSpace(x + y)
  {
    forall i | 0 <= i < |x + y| ensures IsSpace((x + y)[i]) {
      if i >= |x| { assert (x + y)[i] == y[i - |x|]; }
    }
  }

  /** A white-space character in front of a string does not survive trim. */
  lemma TrimConsSpace(c: char, s: string)
    requires IsSpace(c)
    ensures Trim([c] + s) == Trim(s)
  {
    var w1, w2 := TrimSplit(s);
    var t := Trim(s);
    var v := [c] + w1;
    ConsOfThree(c, w1, t, w2);
    AllSpaceSingle(c);
    AllSpaceConcat([c], w1);
    TrimOf(v, t, w2);
  }

  lemma ConsOfThree(c: char, x: string, y: string, z: string)
    ensures [c] + (x + y + z) == ([c] + x) + y + z
  {
  }

  /** Nor does one behind it. */
  lemma TrimSnocSpace(s: string, c: char)
    requires IsSpace(c)
    ensures Trim(s + [c]) == Trim(s)
  {
    var w1, w2 := TrimSplit(s);
    assert s + [c] == w1 + Trim(s) + (w2 + [c]);
    AllSpaceSingle(c);
    AllSpaceConcat(w2, [c]);
    TrimOf(w1, Trim(s), w2 + [c]);
  }

  // ---------------------------------------------------------------------
  // String.prototype.split with a one-character separator, Array.prototype.join

  /** `s.split(sep)`: the pieces between separators, always at least one. */
  function Split(s: string, sep: char): (parts: seq<string>)
    ensures |parts| >= 1
    ensures forall i :: 0 <= i < |parts| ==> sep !in parts[i]
  {
    if s == [] then [[]]
    else
      var rest := Split(s[1..], sep);
      if s[0] == sep then [[]] + rest
      else [[s[0]] + rest[0]] + rest[1..]
  }

  /** `parts.join(sep)`. */
  function Join(parts: seq<string>, sep: string): string {
    if |parts| == 0 then []
    else if |parts| == 1 then parts[0]
    else parts[0] + sep + Join(parts[1..], sep)
  }

  /** Joining the pieces of a split with the separator gives the string back. */
  lemma {:induction false} JoinSplit(s: string, sep: char)
    ensures Join(Split(s, sep), [sep]) == s
  {
    if s != [] {
      var rest := Split(s[1..], sep);
      JoinSplit(s[1..], sep);
      if s[0] == sep {
        assert Split(s, sep) == [[]] + rest;
        assert ([[]] + rest)[1..] == rest;
        assert s == [sep] + s[1..];
      } else {
        var parts := Split(s, sep);
        assert parts == [[s[0]] + rest[0]] + rest[1..];
        if |rest| == 1 {
          assert Join(parts, [sep]) == [s[0]] + rest[0];
        } else {
          assert parts[1..] == rest[1..];
          assert Join(parts, [sep]) == [s[0]] + (rest[0] + [sep] + Join(rest[1..], [sep]));
        }
        assert s == [s[0]] + s[1..];
      }
    }
  }

  /** Appending a non-separator character extends the last piece. */
  lemma {:induction false} SplitSnoc(s: string, c: char, sep: char)
    requires c != sep
    ensures var p := Split(s, sep);
            Split(s + [c], sep) == p[..|p| - 1] + [p[|p| - 1] + [c]]
  {
    if s == [] {
      SplitSnocEmpty(s, c, sep);
    } else {
      SplitSnoc(s[1..], c, sep);
      assert (s + [c])[1..] == s[1..] + [c];
      if s[0] == sep {
        SplitSnocSepFirst(s, c, sep);
      } else {
        SplitSnocWord(s, c, sep);
      }
    }
  }

  /** The base case of `SplitSnoc`. */
  lemma SplitSnocEmpty(s: string, c: char, sep: char)
    requires c != sep && s == []
    ensures var p := Split(s, sep);
            Split(s + [c], sep) == p[..|p| - 1] + [p[|p| - 1] + [c]]
  {
    var e: string := [];
    var none: seq<string> := [];
    assert s + [c] == [c] && [c][1..] == e;
    assert Split(e, sep) == [e];
    assert [e][1..] == none;
    assert [c] + e == [c];
    assert Split([c], sep) == [[c]];
    var p := Split(s, sep);
    assert p[..|p| - 1] == none;
    assert p[|p| - 1] + [c] == [c];
  }

  /** The step of `SplitSnoc` when the string starts with a separator. */
  lemma SplitSnocSepFirst(s: string, c: char, sep: char)
    requires c != sep && s != [] && s[0] == sep && (s + [c])[1..] == s[1..] + [c]
    requires var p1 := Split(s[1..], sep);
             Split(s[1..] + [c], sep) == p1[..|p1| - 1] + [p1[|p1| - 1] + [c]]
    ensures var p := Split(s, sep);
            Split(s + [c], sep) == p[..|p| - 1] + [p[|p| - 1] + [c]]
  {
    var p1 := Split(s[1..], sep);
    var rest' := Split(s[1..] + [c], sep);
    var p := Split(s, sep);
    assert p == [[]] + p1;
    assert Split(s + [c], sep) == [[]] + rest';
    assert p[..|p| - 1] == [[]] + p1[..|p1| - 1];
    assert p[|p| - 1] == p1[|p1| - 1];
  }

  /** The step of `SplitSnoc` when the first character joins the first piece. */
  lemma SplitSnocWord(s: string, c: char, sep: char)
    requires c != sep && s != [] && s[0] != sep && (s + [c])[1..] == s[1..] + [c]
    requires var p1 := Split(s[1..], sep);
             Split(s[1..] + [c], sep) == p1[..|p1| - 1] + [p1[|p1| - 1] + [c]]
    ensures var p := Split(s, sep);
            Split(s + [c], sep) == p[..|p| - 1] + [p[|p| - 1] + [c]]
  {
    var p1 := Split(s[1..], sep);
    var n := |p1|;
    var rest' := Split(s[1..] + [c], sep);
    var p := Split(s, sep);
    assert p == [[s[0]] + p1[0]] + p1[1..];
    assert Split(s + [c], sep) == [[s[0]] + rest'[0]] + rest'[1..];
    if n == 1 {
      assert rest' == [p1[0] + [c]];
      assert [s[0]] + (p1[0] + [c]) == ([s[0]] + p1[0]) + [c];
    } else {
      assert rest'[0] == p1[0];
      assert p1[..n - 1][1..] == p1[1..n - 1];
      assert rest'[1..] == p1[..n - 1][1..] + [p1[n - 1] + [c]];
      assert |p| == n;
      assert p[|p| - 1] == p1[n - 1];
      assert p1[1..][..n - 2] == p1[1..n - 1];
      assert p[..|p| - 1] == [[s[0]] + p1[0]] + p1[1..][..n - 2];
    }
  }

  /** Appending the separator starts a new, empty piece. */
  lemma {:induction false} SplitSnocSep(s: string, sep: char)
    ensures Split(s + [sep], sep) == Split(s, sep) + [[]]
  {
    if s == [] {
      assert Split([sep], sep) == [[]] + Split([], sep);
    } else {
      SplitSnocSep(s[1..], sep);
      assert (s + [sep])[1..] == s[1..] + [sep];
    }
  }

  // ---------------------------------------------------------------------
  // GetSubstitution: the replacement string of String.prototype.replace

  /** The expansion `String.prototype.replace` applies to its replacement
      string when the pattern has no capture groups: `$$` is `$`, `$&` the
      matched text, `` $` `` the text before the match, `$'` the text after it;
      every other `$` stands for itself. */
  function ExpandReplacement(template: string, matched: string, before: string, after: string): (r: string)
    ensures '$' !in template ==> r == template
  {
    if |template| == 0 then []
    else if template[0] == '$' && |template| >= 2 && template[1] in "$&`'" then
      var piece := match template[1]
        case '$' => "$"
        case '&' => matched
        case '`' => before
        case _ => after;
      piece + ExpandReplacement(template[2..], matched, before, after)
    else [template[0]] + ExpandReplacement(template[1..], matched, before, after)
  }

  /** `xs` lists some of the elements of `ys`, in the same order. */
  predicate IsSubsequence(xs: seq<string>, ys: seq<string>)
    decreases |ys|
  {
    if xs == [] then true
    else if ys == [] then false
    else (xs[0] == ys[0] && IsSubsequence(xs[1..], ys[1..])) || IsSubsequence(xs, ys[1..])
  }

}
