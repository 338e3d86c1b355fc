/** The string operations of the system's host language that the matcher and
    the cache rely on, restricted to ASCII: lower-casing, white-space
    classification, stripping, splitting on white-space runs, joining with one
    space, substring containment, replacement and digit tests. */
module Text {

  /** White space as the host language's `split()` and `strip()` see it, for
      ASCII: tab, line feed, vertical tab, form feed, carriage return, the
      four information separators 0x1C-0x1F, and the space. */
  predicate IsSpace(c: char)
  {
    (9 <= c as int <= 13) || (28 <= c as int <= 32)
  }

  predicate IsDigit(c: char)
  {
    '0' <= c <= '9'
  }

  function LowerChar(c: char): char
  {
    if 'A' <= c <= 'Z' then (c as int + 32) as char else c
  }

  /** ASCII lower-casing, character by character. */
  function Lower(s: string): (r: string)
    ensures |r| == |s|
    ensures forall i :: 0 <= i < |s| ==> r[i] == LowerChar(s[i])
  {
    seq(|s|, i requires 0 <= i < |s| => LowerChar(s[i]))
  }

  lemma LowerAppend(a: string, b: string)
    ensures Lower(a + b) == Lower(a) + Lower(b)
  {
    assert forall i :: 0 <= i < |a + b| ==> Lower(a + b)[i] == (Lower(a) + Lower(b))[i];
  }

  /** White space is left alone by lower-casing. */
  lemma LowerKeepsSpaces(p: string)
    requires forall i :: 0 <= i < |p| ==> IsSpace(p[i])
    ensures forall i :: 0 <= i < |Lower(p)| ==> IsSpace(Lower(p)[i])
  {
  }

  /** Number of white-space characters at the front of `s`. */
  function LeadingSpaces(s: string): (n: nat)
    ensures n <= |s|
    ensures forall i :: 0 <= i < n ==> IsSpace(s[i])
    ensures n < |s| ==> !IsSpace(s[n])
  {
    if s == [] || !IsSpace(s[0]) then 0 else 1 + LeadingSpaces(s[1..])
  }

  /** Number of white-space characters at the back of `s`. */
  function TrailingSpaces(s: string): (n: nat)
    ensures n <= |s|
    ensures forall i :: |s| - n <= i < |s| ==> IsSpace(s[i])
    ensures n < |s| ==> !IsSpace(s[|s| - n - 1])
  {
    if s == [] || !IsSpace(s[|s| - 1]) then 0 else 1 + TrailingSpaces(s[..|s| - 1])
  }

  /** The white space at the back of a suffix of `s` is white space at the
      back of `s`. */
  lemma TrailingSpacesOfSuffix(s: string, a: nat)
    requires a <= |s|
    ensures var b := |s| - TrailingSpaces(s[a..]);
      && a <= b
      && (forall i :: b <= i < |s| ==> IsSpace(s[i]))
      && (a < b ==> !IsSpace(s[b - 1]))
  {
    var t := s[a..];
    var b := |s| - TrailingSpaces(t);
    forall i | b <= i < |s| ensures IsSpace(s[i]) {
      assert s[i] == t[i - a];
    }
    if a < b {
      assert s[b - 1] == t[|t| - TrailingSpaces(t) - 1];
    }
  }

  /** `s.strip()`: `s` without its leading and trailing white space. The
      result is a slice of `s` with only white space cut on either side,
      and it neither starts nor ends with white space. */
  function Strip(s: string): (r: string)
    ensures exists a, b ::
      (&& 0 <= a <= b <= |s| && r == s[a..b]
       && (forall i :: 0 <= i < a ==> IsSpace(s[i]))
       && (forall i :: b <= i < |s| ==> IsSpace(s[i])))
    ensures r != [] ==> !IsSpace(r[0]) && !IsSpace(r[|r| - 1])
    ensures (forall i :: 0 <= i < |s| ==> IsSpace(s[i])) ==> r == []
  {
    var a := LeadingSpaces(s);
    var b := |s| - TrailingSpaces(s[a..]);
    TrailingSpacesOfSuffix(s, a);
    s[a..b]
  }

  /** Length of the run of non-white-space characters at the front of `s`. */
  function WordLength(s: string): (n: nat)
    ensures n <= |s|
    ensures forall i :: 0 <= i < n ==> !IsSpace(s[i])
    ensures n < |s| ==> IsSpace(s[n])
  {
    if s == [] || IsSpace(s[0]) then 0 else 1 + WordLength(s[1..])
  }

  /** A word of `split()`: non-empty and free of white space. */
  predicate IsWord(w: string)
  {
    w != [] && forall j :: 0 <= j < |w| ==> !IsSpace(w[j])
  }

  /** `s.split()` with no separator: the maximal runs of non-white-space
      characters, in order. */
  function Split(s: string): (ws: seq<string>)
    ensures forall i :: 0 <= i < |ws| ==> IsWord(ws[i])
    ensures (forall i :: 0 <= i < |s| ==> IsSpace(s[i])) <==> ws == []
    decreases |s|
  {
    var rest := s[LeadingSpaces(s)..];
    if rest == [] then []
    else
      var n := WordLength(rest);
      [rest[..n]] + Split(rest[n..])
  }

  /** White space in front does not change the words. */
  lemma SplitSkipsLeadingSpaces(p: string, s: string)
    requires forall i :: 0 <= i < |p| ==> IsSpace(p[i])
    ensures Split(p + s) == Split(s)
  {
    var n := LeadingSpaces(s);
    var m := LeadingSpaces(p + s);
    assert forall i :: 0 <= i < |p| + n ==> IsSpace((p + s)[i]);
    assert |p| + n < |p + s| ==> !IsSpace((p + s)[|p| + n]);
    assert m == |p| + n;
    assert (p + s)[m..] == s[n..];
  }

  lemma LeadingSpacesAppend(s: string, p: string)
    requires LeadingSpaces(s) < |s|
    ensures LeadingSpaces(s + p) == LeadingSpaces(s)
  {
    var n := LeadingSpaces(s);
    assert forall i :: 0 <= i < n ==> IsSpace((s + p)[i]);
    assert !IsSpace((s + p)[n]);
  }

  lemma WordLengthAppend(s: string, p: string)
    requires p == [] || IsSpace(p[0])
    ensures WordLength(s + p) == WordLength(s)
  {
    var n := WordLength(s);
    assert forall i :: 0 <= i < n ==> !IsSpace((s + p)[i]);
    assert n < |s + p| ==> IsSpace((s + p)[n]);
  }

  /** One step of `Split` on a string that is not all white space. */
  lemma SplitStep(s: string)
    requires LeadingSpaces(s) < |s|
    ensures var rest := s[LeadingSpaces(s)..];
      Split(s) == [rest[..WordLength(rest)]] + Split(rest[WordLength(rest)..])
  {
  }

  /** White space at the back does not change the words. */
  lemma {:induction false} SplitSkipsTrailingSpaces(s: string, p: string)
    requires forall i :: 0 <= i < |p| ==> IsSpace(p[i])
    ensures Split(s + p) == Split(s)
    decreases |s|
  {
    var n := LeadingSpaces(s);
    if n == |s| {
      assert forall i :: 0 <= i < |s + p| ==> IsSpace((s + p)[i]);
    } else {
      LeadingSpacesAppend(s, p);
      var rest := s[n..];
      assert (s + p)[n..] == rest + p;
      WordLengthAppend(rest, p);
      var w := WordLength(rest);
      assert (rest + p)[..w] == rest[..w];
      assert (rest + p)[w..] == rest[w..] + p;
      SplitSkipsTrailingSpaces(rest[w..], p);
      SplitStep(s);
      SplitStep(s + p);
    }
  }

  /** A word between leading white space and a white-space boundary is the
      next piece of the split; with `Split([]) == []` this fixes `split()`
      piece by piece. */
  lemma SplitWord(p: string, w: string, q: string)
    requires forall i :: 0 <= i < |p| ==> IsSpace(p[i])
    requires IsWord(w)
    requires q == [] || IsSpace(q[0])
    ensures Split(p + w + q) == [w] + Split(q)
  {
    assert p + w + q == p + (w + q);
    SplitSkipsLeadingSpaces(p, w + q);
    assert LeadingSpaces(w + q) == 0 by {
      assert (w + q)[0] == w[0];
    }
    WordLengthAppend(w, q);
    assert WordLength(w) == |w| by {
      if WordLength(w) < |w| {
        assert IsSpace(w[WordLength(w)]);
      }
    }
    assert (w + q)[..|w|] == w;
    assert (w + q)[|w|..] == q;
    SplitStep(w + q);
  }

  /** There is nothing to split in the empty string. */
  lemma SplitEmpty()
    ensures Split([]) == []
  {
  }

  /** `' '.join(ws)`. */
  function JoinSpaced(ws: seq<string>): string
  {
    if ws == [] then []
    else if |ws| == 1 then ws[0]
    else ws[0] + " " + JoinSpaced(ws[1..])
  }

  /** A single word splits into itself. */
  lemma SplitOneWord(w: string)
    requires IsWord(w)
    ensures Split(w) == [w]
  {
    assert [] + w + [] == w;
    SplitWord([], w, []);
  }

  /** A word followed by a space is the first piece of the split. */
  lemma SplitWordThenSpace(w: string, rest: string)
    requires IsWord(w)
    ensures Split(w + " " + rest) == [w] + Split(rest)
  {
    assert w + " " + rest == [] + w + (" " + rest);
    SplitWord([], w, " " + rest);
    SplitSkipsLeadingSpaces(" ", rest);
  }

  /** Splitting words joined by single spaces gives the words back. */
  lemma {:induction false} SplitJoinSpaced(ws: seq<string>)
    requires forall i :: 0 <= i < |ws| ==> IsWord(ws[i])
    ensures Split(JoinSpaced(ws)) == ws
    decreases |ws|
  {
    if |ws| == 1 {
      SplitOneWord(ws[0]);
    } else if |ws| > 1 {
      var tail := ws[1..];
      assert JoinSpaced(ws) == ws[0] + " " + JoinSpaced(tail);
      SplitWordThenSpace(ws[0], JoinSpaced(tail));
      assert forall i :: 0 <= i < |tail| ==> IsWord(tail[i]) by {
        assert forall i :: 0 <= i < |tail| ==> tail[i] == ws[i + 1];
      }
      SplitJoinSpaced(tail);
      assert [ws[0]] + tail == ws;
    }
  }

  /** `sub in s`: `sub` occurs in `s` as a contiguous block. */
  predicate Contains(s: string, sub: string)
    decreases |s|
  {
    sub <= s || (s != [] && Contains(s[1..], sub))
  }

  /** `sub` starts at position `i` of `s`. */
  predicate OccursAt(s: string, sub: string, i: int)
  {
    0 <= i <= |s| - |sub| && s[i..i + |sub|] == sub
  }

  /** A contained string starts at some position. */
  lemma {:induction false} ContainsHasPosition(s: string, sub: string)
    requires Contains(s, sub)
    ensures exists i :: OccursAt(s, sub, i)
    decreases |s|
  {
    if sub <= s {
      assert OccursAt(s, sub, 0);
    } else {
      ContainsHasPosition(s[1..], sub);
      var i :| OccursAt(s[1..], sub, i);
      assert s[1..][i..i + |sub|] == s[i + 1..i + 1 + |sub|];
      assert OccursAt(s, sub, i + 1);
    }
  }

  /** A string that starts at some position is contained. */
  lemma {:induction false} PositionGivesContains(s: string, sub: string, i: int)
    requires OccursAt(s, sub, i)
    ensures Contains(s, sub)
    decreases i
  {
    if i == 0 {
      assert s[..|sub|] == sub;
    } else {
      assert s[1..][i - 1..i - 1 + |sub|] == s[i..i + |sub|];
      PositionGivesContains(s[1..], sub, i - 1);
    }
  }

  /** Containment is the existence of a position where `sub` starts. */
  lemma ContainsAt(s: string, sub: string)
    ensures Contains(s, sub) <==> exists i :: OccursAt(s, sub, i)
  {
    if Contains(s, sub) {
      ContainsHasPosition(s, sub);
    }
    forall i | OccursAt(s, sub, i) ensures Contains(s, sub) {
      PositionGivesContains(s, sub, i);
    }
  }

  /** Every character of a contained string is a character of the container. */
  lemma {:induction false} ContainsChar(s: string, sub: string, c: char)
    requires Contains(s, sub) && c in sub
    ensures c in s
    decreases |s|
  {
    if sub <= s {
      var k :| 0 <= k < |sub| && sub[k] == c;
      assert s[k] == c;
    } else {
      ContainsChar(s[1..], sub, c);
      var k :| 0 <= k < |s[1..]| && s[1..][k] == c;
      assert s[k + 1] == c;
    }
  }

  /** `any(kw in s for kw in keywords)`. */
  predicate ContainsAny(s: string, keywords: seq<string>)
  {
    exists i :: 0 <= i < |keywords| && Contains(s, keywords[i])
  }

  /** `s.isdigit()` for ASCII: non-empty and digits only. */
  predicate AllDigits(s: string)
  {
    s != [] && forall i :: 0 <= i < |s| ==> IsDigit(s[i])
  }

  /** `any(ch.isdigit() for ch in s)`. */
  predicate HasDigit(s: string)
  {
    exists i :: 0 <= i < |s| && IsDigit(s[i])
  }

  /** A string of digits only has a digit. */
  lemma AllDigitsHasDigit(s: string)
    ensures AllDigits(s) ==> HasDigit(s)
    ensures HasDigit(s) <==> exists c :: c in s && IsDigit(c)
  {
    if AllDigits(s) {
      assert IsDigit(s[0]);
    }
  }

  /** `s.replace(pat, rep)`: every non-overlapping occurrence of `pat`,
      found left to right, is replaced by `rep`; an empty `pat` puts `rep`
      before every character and at the end. */
  function Replace(s: string, pat: string, rep: string): string
    decreases |s|, |rep|
  {
    if pat == [] then
      if s == [] then rep else rep + [s[0]] + Replace(s[1..], pat, rep)
    else if pat <= s then rep + Replace(s[|pat|..], pat, rep)
    else if s == [] then []
    else [s[0]] + Replace(s[1..], pat, rep)
  }

  /** Replacing a string by itself changes nothing. */
  lemma {:induction false} ReplaceSameIsIdentity(s: string, pat: string)
    ensures Replace(s, pat, pat) == s
    decreases |s|
  {
    if pat == [] {
      if s != [] {
        ReplaceSameIsIdentity(s[1..], pat);
        assert [s[0]] + s[1..] == s;
      }
    } else if pat <= s {
      ReplaceSameIsIdentity(s[|pat|..], pat);
      assert pat + s[|pat|..] == s;
    } else if s != [] {
      ReplaceSameIsIdentity(s[1..], pat);
      assert [s[0]] + s[1..] == s;
    }
  }
}
