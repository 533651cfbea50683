/** The handful of Python string operations the server relies on:
    `str.isspace`, `str.strip()`, `str.split(sep)`, `str.split()`, `sep.join`,
    ASCII `str.lower()` and `rsplit('.', 1)`. */
module Text {
  import opened Common

  /** Python's `str.isspace`: the characters `str.split()` and `str.strip()` treat as whitespace. */
  predicate IsSpace(c: char) {
    || ('\t' <= c <= '\r')
    || ('\U{1C}' <= c <= '\U{1F}')
    || c == ' ' || c == '\U{85}' || c == '\U{A0}' || c == '\U{1680}'
    || ('\U{2000}' <= c <= '\U{200A}')
    || c == '\U{2028}' || c == '\U{2029}' || c == '\U{202F}' || c == '\U{205F}' || c == '\U{3000}'
  }

  predicate AllSpace(s: string) {
    forall i :: 0 <= i < |s| ==> IsSpace(s[i])
  }

  predicate NoSpace(s: string) {
    forall i :: 0 <= i < |s| ==> !IsSpace(s[i])
  }

  /** A non-empty text is blank exactly when its first character and the rest are. */
  lemma AllSpaceFirst(s: string)
    requires |s| > 0
    ensures AllSpace(s) <==> IsSpace(s[0]) && AllSpace(s[1..])
  {
    assert forall i :: 0 < i < |s| ==> s[i] == s[1..][i - 1];
  }

  /** The index of the first non-blank character of `s` at or after `lo`, or `|s|`
      when there is none: where `strip()` and `lstrip()` start. */
  function SkipBlanks(s: string, lo: nat): (i: nat)
    requires lo <= |s|
    ensures lo <= i <= |s|
    ensures forall k :: lo <= k < i ==> IsSpace(s[k])
    ensures i < |s| ==> !IsSpace(s[i])
    decreases |s| - lo
  {
    if lo < |s| && IsSpace(s[lo]) then SkipBlanks(s, lo + 1) else lo
  }

  /** The index just past the last non-blank character of `s[lo..hi]`, or `lo` when
      there is none: where `strip()` and `rstrip()` end. */
  function SkipBlanksBack(s: string, lo: nat, hi: nat): (j: nat)
    requires lo <= hi <= |s|
    ensures lo <= j <= hi
    ensures forall k :: j <= k < hi ==> IsSpace(s[k])
    ensures lo < j ==> !IsSpace(s[j - 1])
    decreases hi
  {
    if lo < hi && IsSpace(s[hi - 1]) then SkipBlanksBack(s, lo, hi - 1) else hi
  }

  /** `s.strip()`: what is left of `s` once leading and trailing whitespace are removed.
      It is empty exactly when `s` is blank, so Python's truthiness test on `s.strip()`
      asks whether `s` holds a non-blank character. */
  function Strip(s: string): (r: string)
    ensures |r| <= |s|
    ensures r == [] <==> AllSpace(s)
    ensures r == [] || (!IsSpace(r[0]) && !IsSpace(r[|r| - 1]))
  {
    var i := SkipBlanks(s, 0);
    var j := SkipBlanksBack(s, i, |s|);
    assert j == i ==> AllSpace(s);
    assert i < j ==> !IsSpace(s[i]);
    s[i..j]
  }

  /** `strip()` keeps a contiguous part of the text and removes only whitespace
      around it. */
  lemma StripSlice(s: string) returns (i: nat, j: nat)
    ensures i <= j <= |s| && Strip(s) == s[i..j]
    ensures AllSpace(s[..i]) && AllSpace(s[j..])
  {
    i := SkipBlanks(s, 0);
    j := SkipBlanksBack(s, i, |s|);
    BlankSlice(s, 0, i);
    BlankSlice(s, j, |s|);
    assert s[0..i] == s[..i] && s[j..|s|] == s[j..];
  }

  /** Does `s` start with `p`? */
  predicate StartsWith(s: string, p: string) {
    |p| <= |s| && s[..|p|] == p
  }

  /** `sep.join(parts)`. */
  function Join(sep: string, parts: seq<string>): (r: string)
  {
    if |parts| == 0 then ""
    else if |parts| == 1 then parts[0]
    else parts[0] + sep + Join(sep, parts[1..])
  }

  /** The scan behind `s.split(sep)`: `cur` is the segment read so far.  At each
      position the separator is tried first, so matches are leftmost and never overlap. */
  function SplitFrom(s: string, sep: string, cur: string): (r: seq<string>)
    requires |sep| > 0
    ensures |r| >= 1
    decreases |s|
  {
    if |s| == 0 then [cur]
    else if StartsWith(s, sep) then [cur] + SplitFrom(s[|sep|..], sep, "")
    else SplitFrom(s[1..], sep, cur + [s[0]])
  }

  /** `s.split(sep)` for a non-empty separator. */
  function Split(s: string, sep: string): (r: seq<string>)
    requires |sep| > 0
    ensures |r| >= 1
  {
    SplitFrom(s, sep, "")
  }

  /** `sep` occurs nowhere in `p`. */
  predicate Free(p: string, sep: string) {
    forall i :: 0 <= i <= |p| ==> !StartsWith(p[i..], sep)
  }

  /** A text that does not start with `sep` has no prefix that does. */
  lemma StartsWithPrefix(p: string, q: string, sep: string)
    requires |p| <= |q| && q[..|p|] == p && !StartsWith(q, sep)
    ensures !StartsWith(p, sep)
  {
    if |sep| <= |p| {
      assert q[..|sep|] == p[..|sep|];
    }
  }

  /** A piece read so far in which no scanned position started `sep` is free of `sep`. */
  lemma FreeCur(cur: string, s: string, sep: string)
    requires |sep| > 0
    requires forall i :: 0 <= i < |cur| ==> !StartsWith((cur + s)[i..], sep)
    ensures Free(cur, sep)
  {
    forall i | 0 <= i <= |cur| ensures !StartsWith(cur[i..], sep) {
      if i < |cur| {
        assert (cur + s)[i..][..|cur[i..]|] == cur[i..];
        StartsWithPrefix(cur[i..], (cur + s)[i..], sep);
      }
    }
  }

  /** Every piece of the scan is free of the separator. */
  lemma {:induction false} SplitFromFree(s: string, sep: string, cur: string)
    requires |sep| > 0
    requires forall i :: 0 <= i < |cur| ==> !StartsWith((cur + s)[i..], sep)
    ensures forall k :: 0 <= k < |SplitFrom(s, sep, cur)| ==> Free(SplitFrom(s, sep, cur)[k], sep)
    decreases |s|
  {
    FreeCur(cur, s, sep);
    if |s| == 0 {
    } else if StartsWith(s, sep) {
      SplitFromStep(s, sep, cur);
      SplitFromFree(s[|sep|..], sep, "");
    } else {
      SplitFromStep(s, sep, cur);
      var cur' := cur + [s[0]];
      assert cur' + s[1..] == cur + s;
      assert (cur + s)[|cur|..] == s;
      SplitFromFree(s[1..], sep, cur');
    }
  }

  /** No piece of `s.split(sep)` contains `sep`.  For a separator that can overlap itself
      this and `JoinSplit` still admit several splittings; `SplitAtFirst` fixes which one. */
  lemma SplitFree(s: string, sep: string)
    requires |sep| > 0
    ensures forall k :: 0 <= k < |Split(s, sep)| ==> Free(Split(s, sep)[k], sep)
  {
    SplitFromFree(s, sep, "");
  }

  lemma {:induction false} JoinCons(sep: string, w: string, rest: seq<string>)
    requires |rest| > 0
    ensures Join(sep, [w] + rest) == w + sep + Join(sep, rest)
  {
    assert ([w] + rest)[1..] == rest;
  }

  /** One step of the `split` scan. */
  lemma SplitFromStep(s: string, sep: string, cur: string)
    requires |sep| > 0 && |s| > 0
    ensures StartsWith(s, sep) ==> SplitFrom(s, sep, cur) == [cur] + SplitFrom(s[|sep|..], sep, "")
    ensures !StartsWith(s, sep) ==> SplitFrom(s, sep, cur) == SplitFrom(s[1..], sep, cur + [s[0]])
  {
  }

  /** Cutting `s` at `k` and gluing the halves back after `cur` gives `cur + s`. */
  lemma GlueAt(cur: string, s: string, k: nat)
    requires k <= |s|
    ensures cur + s[..k] + s[k..] == cur + s
  {
    assert s[..k] + s[k..] == s;
  }

  /** The step of `JoinSplitFrom` at a separator. */
  lemma JoinSplitFromAtSep(s: string, sep: string, cur: string)
    requires |sep| > 0 && |s| > 0 && StartsWith(s, sep)
    requires Join(sep, SplitFrom(s[|sep|..], sep, "")) == s[|sep|..]
    ensures Join(sep, SplitFrom(s, sep, cur)) == cur + s
  {
    SplitFromStep(s, sep, cur);
    JoinCons(sep, cur, SplitFrom(s[|sep|..], sep, ""));
    GlueAt(cur, s, |sep|);
  }

  /** The step of `JoinSplitFrom` at any other character. */
  lemma JoinSplitFromAtChar(s: string, sep: string, cur: string)
    requires |sep| > 0 && |s| > 0 && !StartsWith(s, sep)
    requires Join(sep, SplitFrom(s[1..], sep, cur + [s[0]])) == cur + [s[0]] + s[1..]
    ensures Join(sep, SplitFrom(s, sep, cur)) == cur + s
  {
    SplitFromStep(s, sep, cur);
    GlueAt(cur, s, 1);
    assert s[..1] == [s[0]];
  }

  lemma {:induction false} JoinSplitFrom(s: string, sep: string, cur: string)
    requires |sep| > 0
    ensures Join(sep, SplitFrom(s, sep, cur)) == cur + s
    decreases |s|
  {
    if |s| == 0 {
      assert cur + s == cur;
    } else if StartsWith(s, sep) {
      JoinSplitFrom(s[|sep|..], sep, "");
      assert "" + s[|sep|..] == s[|sep|..];
      JoinSplitFromAtSep(s, sep, cur);
    } else {
      JoinSplitFrom(s[1..], sep, cur + [s[0]]);
      JoinSplitFromAtChar(s, sep, cur);
    }
  }

  /** Splitting and joining back with the same separator gives the text again. */
  lemma JoinSplit(s: string, sep: string)
    requires |sep| > 0
    ensures Join(sep, Split(s, sep)) == s
  {
    JoinSplitFrom(s, sep, "");
  }

  lemma {:induction false} SplitFromNoSep(s: string, sep: string, cur: string)
    requires |sep| > 0
    requires forall i :: 0 <= i <= |s| ==> !StartsWith(s[i..], sep)
    ensures SplitFrom(s, sep, cur) == [cur + s]
    decreases |s|
  {
    if |s| > 0 {
      assert !StartsWith(s[0..], sep) && s[0..] == s;
      forall i | 0 <= i <= |s[1..]| ensures !StartsWith(s[1..][i..], sep) {
        assert s[1..][i..] == s[i + 1..];
      }
      SplitFromNoSep(s[1..], sep, cur + [s[0]]);
      assert cur + [s[0]] + s[1..] == cur + s;
    } else {
      assert cur + s == cur;
    }
  }

  /** A text with no occurrence of the separator splits into itself alone. */
  lemma SplitNoSep(s: string, sep: string)
    requires |sep| > 0
    requires forall i :: 0 <= i <= |s| ==> !StartsWith(s[i..], sep)
    ensures Split(s, sep) == [s]
  {
    SplitFromNoSep(s, sep, "");
    assert "" + s == s;
  }

  /** A text shorter than the separator cannot contain it. */
  lemma SplitShort(s: string, sep: string)
    requires |s| < |sep|
    ensures Split(s, sep) == [s]
  {
    SplitNoSep(s, sep);
  }

  /** A piece in which the separator does not start is split off whole. */
  lemma {:induction false} SplitFromPiece(p: string, rest: string, sep: string, cur: string)
    requires |sep| > 0
    requires forall i :: 0 <= i < |p| ==> !StartsWith((p + sep + rest)[i..], sep)
    ensures SplitFrom(p + sep + rest, sep, cur) == [cur + p] + SplitFrom(rest, sep, "")
    decreases |p|
  {
    var s := p + sep + rest;
    if |p| == 0 {
      assert s == sep + rest && StartsWith(s, sep) && s[|sep|..] == rest;
      assert cur + p == cur;
    } else {
      assert !StartsWith(s[0..], sep) && s[0..] == s;
      assert s[1..] == p[1..] + sep + rest;
      forall i | 0 <= i < |p[1..]| ensures !StartsWith((p[1..] + sep + rest)[i..], sep) {
        assert (p[1..] + sep + rest)[i..] == s[i + 1..];
      }
      SplitFromPiece(p[1..], rest, sep, cur + [p[0]]);
      assert cur + [p[0]] + p[1..] == cur + p;
    }
  }
  /** The first piece of `s.split(sep)` ends at the leftmost occurrence of `sep`, and the
      scan resumes just after that occurrence. */
  lemma SplitAtFirst(s: string, sep: string, k: nat)
    requires |sep| > 0 && k + |sep| <= |s| && StartsWith(s[k..], sep)
    requires forall i :: 0 <= i < k ==> !StartsWith(s[i..], sep)
    ensures Split(s, sep) == [s[..k]] + Split(s[k + |sep|..], sep)
  {
    var p, rest := s[..k], s[k + |sep|..];
    assert s[k..][..|sep|] == sep;
    assert s == p + sep + rest by {
      assert s[k..k + |sep|] == s[k..][..|sep|];
      assert s == s[..k] + s[k..k + |sep|] + s[k + |sep|..];
    }
    SplitFromPiece(p, rest, sep, "");
    assert "" + p == p;
  }

  /** With an overlapping separator the leftmost occurrence wins: "ababa".split("aba")
      is `["", "ba"]`, not `["ab", ""]`. */
  lemma SplitOverlapping()
    ensures Split("ababa", "aba") == ["", "ba"]
  {
    SplitAtFirst("ababa", "aba", 0);
    assert "ababa"[..0] == "" && "ababa"[3..] == "ba";
    SplitShort("ba", "aba");
  }

  /** The one-character case of `SplitFromPiece`. */
  lemma SplitOffChar(c: char, rest: string, sep: string, cur: string)
    requires |sep| > 0 && c != sep[0]
    ensures SplitFrom([c] + sep + rest, sep, cur) == [cur + [c]] + SplitFrom(rest, sep, "")
  {
    var s := [c] + sep + rest;
    forall i | 0 <= i < 1 ensures !StartsWith(s[i..], sep) {
      assert s[i..] == s && s[0] == c;
    }
    SplitFromPiece([c], rest, sep, cur);
  }

  /** The scan behind `s.split()`: runs of whitespace separate words, and no word is empty. */
  function WordsFrom(s: string, cur: string): (r: seq<string>)
    requires NoSpace(cur)
    ensures forall k :: 0 <= k < |r| ==> r[k] != [] && NoSpace(r[k])
    decreases |s|
  {
    if |s| == 0 then (if cur == [] then [] else [cur])
    else if IsSpace(s[0]) then (if cur == [] then [] else [cur]) + WordsFrom(s[1..], [])
    else WordsFrom(s[1..], cur + [s[0]])
  }

  /** `s.split()` with no argument. */
  function Words(s: string): (r: seq<string>)
    ensures forall k :: 0 <= k < |r| ==> r[k] != [] && NoSpace(r[k])
  {
    WordsFrom(s, [])
  }

  /** Reading a run of non-blank characters only extends the current word. */
  lemma {:induction false} WordsFromWord(w: string, rest: string, cur: string)
    requires NoSpace(cur) && NoSpace(w)
    ensures NoSpace(cur + w)
    ensures WordsFrom(w + rest, cur) == WordsFrom(rest, cur + w)
    decreases |w|
  {
    if |w| > 0 {
      assert (w + rest)[0] == w[0] && (w + rest)[1..] == w[1..] + rest;
      WordsFromWord(w[1..], rest, cur + [w[0]]);
      assert cur + [w[0]] + w[1..] == cur + w;
    } else {
      assert w + rest == rest && cur + w == cur;
    }
  }

  /** `s.split()` undoes `' '.join(ws)` when every word is non-empty and blank-free. */
  lemma {:induction false} WordsOfJoin(ws: seq<string>)
    requires forall k :: 0 <= k < |ws| ==> ws[k] != [] && NoSpace(ws[k])
    ensures Words(Join(" ", ws)) == ws
    decreases |ws|
  {
    if |ws| == 1 {
      WordsFromWord(ws[0], "", []);
      assert ws[0] + "" == ws[0] && [] + ws[0] == ws[0];
    } else if |ws| > 1 {
      var w, rest := ws[0], Join(" ", ws[1..]);
      WordsOfJoin(ws[1..]);
      assert Join(" ", ws) == w + (" " + rest);
      WordsFromWord(w, " " + rest, []);
      assert [] + w == w;
      assert (" " + rest)[1..] == rest;
      assert [w] + ws[1..] == ws;
    }
  }

  /** `gaps[0] + ws[0] + gaps[1] + ws[1] + ... + ws[n - 1] + gaps[n]`: words with
      the text between them. */
  function Spaced(gaps: seq<string>, ws: seq<string>): (r: string)
    requires |gaps| == |ws| + 1
    decreases |ws|
  {
    if |ws| == 0 then gaps[0] else gaps[0] + (ws[0] + Spaced(gaps[1..], ws[1..]))
  }

  /** Non-empty blank-free words, blank gaps, and a non-empty gap between any two words. */
  predicate WellSpaced(gaps: seq<string>, ws: seq<string>) {
    && |gaps| == |ws| + 1
    && (forall k :: 0 <= k < |ws| ==> ws[k] != [] && NoSpace(ws[k]))
    && (forall k :: 0 <= k < |gaps| ==> AllSpace(gaps[k]))
    && (forall k :: 0 < k < |ws| ==> gaps[k] != [])
  }

  /** A blank run ends the current word, if any, and is otherwise skipped. */
  lemma {:induction false} WordsFromGap(g: string, rest: string, cur: string)
    requires AllSpace(g) && NoSpace(cur) && (g != [] || cur == [])
    ensures WordsFrom(g + rest, cur) == (if cur == [] then [] else [cur]) + WordsFrom(rest, [])
    decreases |g|
  {
    if g == [] {
      assert g + rest == rest;
    } else {
      AllSpaceFirst(g);
      assert (g + rest)[0] == g[0] && (g + rest)[1..] == g[1..] + rest;
      WordsFromGap(g[1..], rest, []);
    }
  }

  /** After a word, a blank run (or the end of the text) closes that word. */
  lemma WordsFromAfterWord(g: string, rest: string, w: string)
    requires AllSpace(g) && w != [] && NoSpace(w) && (g != [] || rest == [])
    ensures WordsFrom(g + rest, w) == [w] + WordsFrom(g + rest, [])
  {
    if g != [] {
      WordsFromGap(g, rest, w);
      WordsFromGap(g, rest, []);
      assert [] + WordsFrom(rest, []) == WordsFrom(rest, []);
    } else {
      assert g + rest == [];
    }
  }

  /** The tail of a well-spaced text is well spaced, and after its first word comes
      a blank run, or nothing. */
  lemma WellSpacedTail(gaps: seq<string>, ws: seq<string>) returns (g: string, rest: string)
    requires WellSpaced(gaps, ws) && |ws| > 0
    ensures WellSpaced(gaps[1..], ws[1..])
    ensures Spaced(gaps[1..], ws[1..]) == g + rest
    ensures AllSpace(g) && (g != [] || rest == [])
  {
    g := gaps[1];
    if |ws| == 1 {
      rest := [];
      assert g + rest == g;
    } else {
      rest := ws[1] + Spaced(gaps[2..], ws[2..]);
      assert gaps[1..][1..] == gaps[2..] && ws[1..][1..] == ws[2..];
    }
  }

  /** `s.split()` recovers the words of any text: whatever blank runs separate them
      and whatever blank text surrounds them. */
  lemma {:induction false} WordsOfSpaced(gaps: seq<string>, ws: seq<string>)
    requires WellSpaced(gaps, ws)
    ensures Words(Spaced(gaps, ws)) == ws
    decreases |ws|
  {
    if |ws| == 0 {
      WordsFromGap(gaps[0], "", []);
      assert gaps[0] + "" == gaps[0];
    } else {
      var t := Spaced(gaps[1..], ws[1..]);
      WordsFromGap(gaps[0], ws[0] + t, []);
      WordsFromWord(ws[0], t, []);
      assert [] + ws[0] == ws[0];
      var g, rest := WellSpacedTail(gaps, ws);
      WordsOfSpaced(gaps[1..], ws[1..]);
      WordsFromAfterWord(g, rest, ws[0]);
      assert [ws[0]] + ws[1..] == ws;
    }
  }

  /** The index of the first blank character of `s` at or after `lo`, or `|s|`: where
      the word starting at `lo` ends. */
  function SkipWord(s: string, lo: nat): (j: nat)
    requires lo <= |s|
    ensures lo <= j <= |s|
    ensures forall k :: lo <= k < j ==> !IsSpace(s[k])
    ensures j < |s| ==> IsSpace(s[j])
    decreases |s| - lo
  {
    if lo < |s| && !IsSpace(s[lo]) then SkipWord(s, lo + 1) else lo
  }

  /** A blank run and a word in front of a well-spaced text keep it well spaced. */
  lemma WellSpacedCons(g: string, w: string, gaps: seq<string>, ws: seq<string>)
    requires AllSpace(g) && w != [] && NoSpace(w) && WellSpaced(gaps, ws)
    requires |ws| > 0 ==> gaps[0] != []
    ensures WellSpaced([g] + gaps, [w] + ws)
    ensures Spaced([g] + gaps, [w] + ws) == g + (w + Spaced(gaps, ws))
  {
    assert ([g] + gaps)[1..] == gaps && ([w] + ws)[1..] == ws;
  }

  /** Characters known blank one by one make a blank slice. */
  lemma BlankSlice(s: string, i: nat, j: nat)
    requires i <= j <= |s| && forall k :: i <= k < j ==> IsSpace(s[k])
    ensures AllSpace(s[i..j])
  {
    forall k | 0 <= k < j - i ensures IsSpace(s[i..j][k]) {
      assert s[i..j][k] == s[i + k];
    }
  }

  /** Characters known non-blank one by one make a blank-free slice. */
  lemma WordSlice(s: string, i: nat, j: nat)
    requires i <= j <= |s| && forall k :: i <= k < j ==> !IsSpace(s[k])
    ensures NoSpace(s[i..j])
  {
    forall k | 0 <= k < j - i ensures !IsSpace(s[i..j][k]) {
      assert s[i..j][k] == s[i + k];
    }
  }

  /** Every text is a well-spaced sequence of words: its leading blanks, its first
      word, and the same again for the rest. */
  lemma {:induction false} Decompose(s: string) returns (gaps: seq<string>, ws: seq<string>)
    ensures WellSpaced(gaps, ws) && Spaced(gaps, ws) == s
    ensures |ws| > 0 && gaps[0] == [] ==> !IsSpace(s[0])
    decreases |s|
  {
    var i := SkipBlanks(s, 0);
    BlankSlice(s, 0, i);
    if i == |s| {
      gaps, ws := [s], [];
      assert s[0..|s|] == s;
    } else {
      var j := SkipWord(s, i);
      WordSlice(s, i, j);
      var rest := s[j..];
      var gaps', ws' := Decompose(rest);
      if |ws'| > 0 {
        assert |rest| > 0 && rest[0] == s[j];
      }
      WellSpacedCons(s[0..i], s[i..j], gaps', ws');
      gaps, ws := [s[0..i]] + gaps', [s[i..j]] + ws';
      assert s == s[0..i] + (s[i..j] + rest);
    }
  }

  /** `s.split()` returns the words of `s` and nothing else: `s` is exactly those
      words, separated by non-empty blank runs, with blank text at either end. */
  lemma WordsSpaced(s: string) returns (gaps: seq<string>)
    ensures WellSpaced(gaps, Words(s)) && Spaced(gaps, Words(s)) == s
  {
    var ws;
    gaps, ws := Decompose(s);
    WordsOfSpaced(gaps, ws);
  }

  /** ASCII lower-casing of one character. */
  function LowerChar(c: char): (l: char) {
    if 'A' <= c <= 'Z' then (c as int + 32) as char else c
  }

  /** `s.lower()` restricted to ASCII letters. */
  function Lower(s: string): (r: string)
    ensures |r| == |s|
    ensures forall i :: 0 <= i < |s| ==> r[i] == LowerChar(s[i])
  {
    seq(|s|, i requires 0 <= i < |s| => LowerChar(s[i]))
  }

  /** Index of the last occurrence of `c` in `s`, if any: what `rsplit(c, 1)` splits at. */
  function LastIndexOf(s: string, c: char): (r: Option<nat>)
    ensures r.None? ==> c !in s
    ensures r.Some? ==> r.value < |s| && s[r.value] == c && c !in s[r.value + 1..]
    decreases |s|
  {
    if |s| == 0 then None
    else if s[|s| - 1] == c then Some(|s| - 1)
    else
      var init := s[..|s| - 1];
      assert s == init + [s[|s| - 1]];
      match LastIndexOf(init, c)
      case None => None
      case Some(k) =>
        assert s[k + 1..] == init[k + 1..] + [s[|s| - 1]];
        Some(k)
  }
}
