/** The string operations of the JavaScript runtime that the content scripts use:
    `toLowerCase`, `trim`, `startsWith`, `includes`, `split` on a character,
    `split(/\s+/)` and `replace(/\s+/g, …)`. Characters are restricted to the
    ASCII case mapping and a fixed white-space set. */
module Text {

  /** White space as `trim` and `\s` see it: the ASCII spaces and the no-break space. */
  predicate IsSpace(c: char) {
    c == ' ' || c == '\t' || c == '\n' || c == '\r' ||
    c == '\U{000B}' || c == '\U{000C}' || c == '\U{00A0}'
  }

  predicate IsUpper(c: char) { 'A' <= c <= 'Z' }

  function LowerChar(c: char): (r: char)
    ensures !IsUpper(r)
    ensures !IsUpper(c) ==> r == c
    ensures IsSpace(r) <==> IsSpace(c)
  {
    if IsUpper(c) then (c as int + 32) as char else c
  }

  /** `toLowerCase`: maps each ASCII capital to its small letter. */
  function Lower(s: string): (r: string)
    ensures |r| == |s|
    decreases |s|
  {
    if s == [] then [] else [LowerChar(s[0])] + Lower(s[1..])
  }

  /** `toLowerCase` works position by position. */
  lemma {:induction false} LowerSpec(s: string)
    ensures forall i :: 0 <= i < |s| ==> Lower(s)[i] == LowerChar(s[i])
    decreases |s|
  {
    if s != [] {
      LowerSpec(s[1..]);
    }
  }

  lemma LowerAppend(a: string, b: string)
    ensures Lower(a + b) == Lower(a) + Lower(b)
  {
    LowerSpec(a);
    LowerSpec(b);
    LowerSpec(a + b);
    assert forall i :: 0 <= i < |a + b| ==> Lower(a + b)[i] == (Lower(a) + Lower(b))[i];
  }

  /** Removes leading white space. */
  function TrimStart(s: string): string
    decreases |s|
  {
    if s != [] && IsSpace(s[0]) then TrimStart(s[1..]) else s
  }

  /** Removes trailing white space. */
  function TrimEnd(s: string): string
    decreases |s|
  {
    if s != [] && IsSpace(s[|s| - 1]) then TrimEnd(s[..|s| - 1]) else s
  }

  /** `trim`: `s` without the white space at both ends. */
  function Trim(s: string): string {
    TrimEnd(TrimStart(s))
  }

  /** `TrimStart` keeps a suffix that does not start with white space and drops only
      white space. */
  lemma {:induction false} TrimStartSpec(s: string)
    ensures |TrimStart(s)| <= |s| && TrimStart(s) == s[|s| - |TrimStart(s)|..]
    ensures TrimStart(s) == [] || !IsSpace(TrimStart(s)[0])
    ensures forall i :: 0 <= i < |s| - |TrimStart(s)| ==> IsSpace(s[i])
    decreases |s|
  {
    if s != [] && IsSpace(s[0]) {
      TrimStartSpec(s[1..]);
    }
  }

  /** `TrimEnd` keeps a prefix that does not end with white space and drops only white
      space. */
  lemma {:induction false} TrimEndSpec(s: string)
    ensures |TrimEnd(s)| <= |s| && TrimEnd(s) == s[..|TrimEnd(s)|]
    ensures TrimEnd(s) == [] || !IsSpace(TrimEnd(s)[|TrimEnd(s)| - 1])
    ensures forall i :: |TrimEnd(s)| <= i < |s| ==> IsSpace(s[i])
    decreases |s|
  {
    if s != [] && IsSpace(s[|s| - 1]) {
      TrimEndSpec(s[..|s| - 1]);
    }
  }

  /** The result of `trim` is no longer than its argument and has no white space at
      either end. */
  lemma TrimSpec(s: string)
    ensures |Trim(s)| <= |s|
    ensures Unpadded(Trim(s))
  {
    TrimStartSpec(s);
    TrimEndSpec(TrimStart(s));
  }

  /** `toLowerCase().trim()`, the comparison form of button and label text. */
  function Clean(s: string): string {
    Trim(Lower(s))
  }

  predicate AllSpace(s: string) { forall i :: 0 <= i < |s| ==> IsSpace(s[i]) }

  predicate Unpadded(m: string) { m == [] || (!IsSpace(m[0]) && !IsSpace(m[|m| - 1])) }

  lemma {:induction false} TrimStartPadded(a: string, m: string)
    requires AllSpace(a) && (m == [] || !IsSpace(m[0]))
    ensures TrimStart(a + m) == m
    decreases |a|
  {
    if a != [] {
      assert (a + m)[1..] == a[1..] + m;
      TrimStartPadded(a[1..], m);
    } else {
      assert a + m == m;
    }
  }

  lemma {:induction false} TrimEndPadded(m: string, b: string)
    requires AllSpace(b) && (m == [] || !IsSpace(m[|m| - 1]))
    ensures TrimEnd(m + b) == m
    decreases |b|
  {
    if b != [] {
      assert (m + b)[..|m + b| - 1] == m + b[..|b| - 1];
      TrimEndPadded(m, b[..|b| - 1]);
    } else {
      assert m + b == m;
    }
  }

  /** The defining property of `trim`: white space around an unpadded middle is exactly
      what is removed. */
  lemma TrimPadded(a: string, m: string, b: string)
    requires AllSpace(a) && AllSpace(b) && Unpadded(m)
    ensures Trim(a + m + b) == m
  {
    if m == [] {
      assert a + m + b == a + b;
      assert AllSpace(a + b);
      TrimStartPadded(a + b, []);
      assert a + b + [] == a + b;
    } else {
      assert a + m + b == a + (m + b);
      TrimStartPadded(a, m + b);
      TrimEndPadded(m, b);
    }
  }

  /** One space on either side of an unpadded text is trimmed away. */
  lemma TrimAround(m: string)
    requires Unpadded(m)
    ensures Trim(m + " ") == m && Trim(" " + m) == m
  {
    assert AllSpace(" ") && AllSpace([]);
    assert m + " " == [] + m + " ";
    TrimPadded([], m, " ");
    assert " " + m == " " + m + [];
    TrimPadded(" ", m, []);
  }

  predicate StartsWith(s: string, p: string) {
    |p| <= |s| && s[..|p|] == p
  }

  /** `w` is found in `s` at position `i`. */
  predicate OccursAt(w: string, s: string, i: int) {
    0 <= i && i + |w| <= |s| && s[i..i + |w|] == w
  }

  ghost predicate Occurs(w: string, s: string) {
    exists i :: OccursAt(w, s, i)
  }

  /** `s.includes(w)`: tries every start position from the left. */
  function Contains(s: string, w: string): bool
    decreases |s|
  {
    StartsWith(s, w) || (s != [] && Contains(s[1..], w))
  }

  /** `includes` finds `w` exactly when some slice of `s` equals `w`. */
  lemma {:induction false} ContainsIff(s: string, w: string)
    ensures Contains(s, w) <==> Occurs(w, s)
    decreases |s|
  {
    if StartsWith(s, w) {
      assert OccursAt(w, s, 0);
    }
    if s == [] {
      if Occurs(w, s) {
        var i :| OccursAt(w, s, i);
        assert StartsWith(s, w);
      }
    } else {
      ContainsIff(s[1..], w);
      if Occurs(w, s[1..]) {
        var j :| OccursAt(w, s[1..], j);
        assert s[1..][j..j + |w|] == s[j + 1..j + 1 + |w|];
        assert OccursAt(w, s, j + 1);
      }
      if Occurs(w, s) {
        var i :| OccursAt(w, s, i);
        if i == 0 {
          assert StartsWith(s, w);
        } else {
          assert s[1..][i - 1..i - 1 + |w|] == s[i..i + |w|];
          assert OccursAt(w, s[1..], i - 1);
        }
      }
    }
  }

  lemma OccursAtTrans(a: string, b: string, c: string, i: nat, j: nat)
    requires OccursAt(a, b, i) && OccursAt(b, c, j)
    ensures OccursAt(a, c, j + i)
  {
    assert forall k :: 0 <= k < |a| ==> c[j + i + k] == b[i + k] == a[k];
    assert c[j + i..j + i + |a|] == a;
  }

  lemma OccursTrans(a: string, b: string, c: string)
    requires Occurs(a, b) && Occurs(b, c)
    ensures Occurs(a, c)
  {
    var i :| OccursAt(a, b, i);
    var j :| OccursAt(b, c, j);
    OccursAtTrans(a, b, c, i, j);
  }

  lemma OccursSelf(s: string)
    ensures Occurs(s, s)
  {
    assert OccursAt(s, s, 0);
  }

  lemma OccursInMiddle(a: string, m: string, b: string)
    ensures Occurs(m, a + m + b)
  {
    assert (a + m + b)[|a|..|a| + |m|] == m;
    assert OccursAt(m, a + m + b, |a|);
  }

  /** A word with a character that does not appear in `s` is not contained in it. */
  lemma NotContainsByChar(s: string, w: string, k: nat)
    requires k < |w| && w[k] !in s
    ensures !Contains(s, w)
  {
    ContainsIff(s, w);
  }

  /** Whatever contains a word contains every part of it. */
  lemma ContainsPart(s: string, w: string, v: string)
    requires Contains(s, w) && Occurs(v, w)
    ensures Contains(s, v)
  {
    ContainsIff(s, w);
    ContainsIff(s, v);
    OccursTrans(v, w, s);
  }

  /** `trim` keeps one slice of its argument and drops only white space around it. */
  lemma TrimSlice(s: string) returns (a: nat)
    ensures a + |Trim(s)| <= |s| && Trim(s) == s[a..a + |Trim(s)|]
    ensures forall k :: 0 <= k < a ==> IsSpace(s[k])
    ensures forall k :: a + |Trim(s)| <= k < |s| ==> IsSpace(s[k])
  {
    TrimStartSpec(s);
    TrimEndSpec(TrimStart(s));
    var t := TrimStart(s);
    a := |s| - |t|;
    assert Trim(s) == t[..|Trim(s)|];
    assert forall k :: a + |Trim(s)| <= k < |s| ==> s[k] == t[k - a];
  }

  /** Two slices of one text, the first inside the second, overlap as a slice. */
  lemma SliceInSlice(y: string, a: nat, n: string, q: nat, m: string)
    requires a + |n| <= |y| && n == y[a..a + |n|]
    requires OccursAt(m, y, q) && a <= q && q + |m| <= a + |n|
    ensures OccursAt(m, n, q - a)
  {
    assert forall k :: 0 <= k < |m| ==> n[q - a + k] == y[q + k] == m[k];
  }

  /** An unpadded, non-empty text found in `y` lies inside the trimmed core of `y`. */
  lemma UnpaddedInTrim(m: string, y: string, q: nat)
    requires m != [] && Unpadded(m) && OccursAt(m, y, q)
    ensures Occurs(m, Trim(y))
  {
    var a := TrimSlice(y);
    var n := Trim(y);
    assert y[q] == m[0] && y[q + |m| - 1] == m[|m| - 1];
    assert a <= q;
    assert q + |m| <= a + |n|;
    SliceInSlice(y, a, n, q, m);
  }

  /** A text inside another keeps its trimmed core inside the other's trimmed core. */
  lemma OccursTrim(x: string, y: string)
    requires Occurs(x, y)
    ensures Occurs(Trim(x), Trim(y))
  {
    var p :| OccursAt(x, y, p);
    var m := Trim(x);
    TrimSpec(x);
    if m == [] {
      assert OccursAt(m, Trim(y), 0);
    } else {
      var i := TrimSlice(x);
      assert OccursAt(m, x, i);
      OccursAtTrans(m, x, y, i, p);
      UnpaddedInTrim(m, y, p + i);
    }
  }

  lemma OccursLower(x: string, y: string)
    requires Occurs(x, y)
    ensures Occurs(Lower(x), Lower(y))
  {
    var p :| OccursAt(x, y, p);
    LowerSpec(x);
    LowerSpec(y);
    assert forall k :: 0 <= k < |x| ==> Lower(y)[p + k] == LowerChar(y[p + k]) == LowerChar(x[k]);
    assert Lower(y)[p..p + |x|] == Lower(x);
    assert OccursAt(Lower(x), Lower(y), p);
  }

  /** The inverse of `SplitOn`: the parts glued back with the separator. */
  function Join(parts: seq<string>, sep: char): string
    requires |parts| >= 1
  {
    if |parts| == 1 then parts[0] else parts[0] + [sep] + Join(parts[1..], sep)
  }

  lemma JoinConsHead(c: char, parts: seq<string>, sep: char)
    requires |parts| >= 1
    ensures Join([[c] + parts[0]] + parts[1..], sep) == [c] + Join(parts, sep)
  {
    var ps := [[c] + parts[0]] + parts[1..];
    if |parts| > 1 {
      assert ps[1..] == parts[1..];
    }
  }

  /** `s.split(sep)` for a one-character separator. */
  function SplitOn(s: string, sep: char): (r: seq<string>)
    ensures |r| >= 1
    decreases |s|
  {
    if s == [] then [[]]
    else
      var rest := SplitOn(s[1..], sep);
      if s[0] == sep then [[]] + rest
      else [[s[0]] + rest[0]] + rest[1..]
  }

  /** Every part of a split is free of the separator, and the parts joined with the
      separator give the string back. */
  lemma {:induction false} SplitOnSpec(s: string, sep: char)
    ensures forall k, j :: 0 <= k < |SplitOn(s, sep)| && 0 <= j < |SplitOn(s, sep)[k]| ==>
      SplitOn(s, sep)[k][j] != sep
    ensures Join(SplitOn(s, sep), sep) == s
    decreases |s|
  {
    if s != [] {
      SplitOnSpec(s[1..], sep);
      var rest := SplitOn(s[1..], sep);
      if s[0] != sep {
        JoinConsHead(s[0], rest, sep);
        var r := SplitOn(s, sep);
        assert r[0] == [s[0]] + rest[0];
        assert forall k :: 1 <= k < |r| ==> r[k] == rest[k];
      }
    }
  }

  /** A text splits into one part exactly when it has no separator. */
  lemma SplitOnOnePart(s: string, sep: char)
    ensures |SplitOn(s, sep)| == 1 <==> sep !in s
  {
    SplitOnSpec(s, sep);
    if sep !in s {
      SplitOnWithout(s, sep);
    }
  }

  /** Splitting at the first separator: the part before it comes first. */
  lemma {:induction false} SplitOnAt(a: string, b: string, sep: char)
    requires sep !in a
    ensures SplitOn(a + [sep] + b, sep) == [a] + SplitOn(b, sep)
    decreases |a|
  {
    var s := a + [sep] + b;
    if a == [] {
      assert s[1..] == b;
    } else {
      assert s[1..] == a[1..] + [sep] + b;
      SplitOnAt(a[1..], b, sep);
      assert [a[0]] + a[1..] == a;
    }
  }

  lemma {:induction false} SplitOnWithout(s: string, sep: char)
    requires sep !in s
    ensures SplitOn(s, sep) == [s]
    decreases |s|
  {
    if s != [] {
      SplitOnWithout(s[1..], sep);
      assert [s[0]] + s[1..] == s;
    }
  }

  /** `filter(x => x)` on strings: the non-empty parts, in order. */
  function NonEmpty(parts: seq<string>): (r: seq<string>)
    ensures |r| <= |parts|
    ensures forall k :: 0 <= k < |r| ==> r[k] != []
    ensures forall p :: p in r <==> p in parts && p != []
  {
    if parts == [] then []
    else if parts[0] == [] then NonEmpty(parts[1..])
    else [parts[0]] + NonEmpty(parts[1..])
  }

  /** The filter keeps the order of the parts: filtering a concatenation is filtering
      each half (and a single part is kept exactly when it is non-empty, `NonEmptyOne`). */
  lemma {:induction false} NonEmptyAppend(a: seq<string>, b: seq<string>)
    ensures NonEmpty(a + b) == NonEmpty(a) + NonEmpty(b)
    decreases |a|
  {
    if a != [] {
      assert (a + b)[1..] == a[1..] + b;
      NonEmptyAppend(a[1..], b);
    } else {
      assert a + b == b;
    }
  }

  lemma NonEmptyOne(p: string)
    ensures NonEmpty([p]) == (if p == [] then [] else [p])
  {
  }

  /** `s.split(' ').filter(x => x).length`: the number of space-separated tokens. */
  function TokenCount(s: string): nat {
    |NonEmpty(SplitOn(s, ' '))|
  }

  /** A string has a token exactly when it has a character other than a space. */
  lemma {:induction false} TokenCountPositive(s: string)
    ensures TokenCount(s) > 0 <==> exists i :: 0 <= i < |s| && s[i] != ' '
    decreases |s|
  {
    if s != [] {
      TokenCountPositive(s[1..]);
      var rest := SplitOn(s[1..], ' ');
      if s[0] == ' ' {
        assert SplitOn(s, ' ') == [[]] + rest;
        assert NonEmpty(SplitOn(s, ' ')) == NonEmpty(rest);
        assert forall i :: 0 <= i < |s[1..]| ==> s[1..][i] == s[i + 1];
      } else {
        assert SplitOn(s, ' ')[0] != [];
        assert s[0] != ' ';
      }
    }
  }

  /** `s.split(/\s+/)`: each maximal run of white space separates two parts; a run at
      either end leaves an empty part there. */
  function SplitWs(s: string): (r: seq<string>)
    ensures |r| >= 1
    ensures forall k, j :: 0 <= k < |r| && 0 <= j < |r[k]| ==> !IsSpace(r[k][j])
    decreases |s|
  {
    if s == [] then [[]]
    else
      var rest := SplitWs(s[1..]);
      if !IsSpace(s[0]) then [[s[0]] + rest[0]] + rest[1..]
      else if |s| > 1 && IsSpace(s[1]) then rest
      else [[]] + rest
  }

  /** A string without white space is one part. */
  lemma {:induction false} SplitWsNoSpace(s: string)
    requires forall i :: 0 <= i < |s| ==> !IsSpace(s[i])
    ensures SplitWs(s) == [s]
    decreases |s|
  {
    if s != [] {
      SplitWsNoSpace(s[1..]);
      assert [s[0]] + s[1..] == s;
    }
  }

  /** The parts are the maximal runs of non-space characters: a run `a` without white
      space, followed by a whole run `w` of white space, is the first part, and the
      split goes on after the run. Together with `SplitWsNoSpace` this fixes the parts
      of every string. */
  lemma {:induction false} SplitWsAt(a: string, w: string, b: string)
    requires forall i :: 0 <= i < |a| ==> !IsSpace(a[i])
    requires w != [] && forall i :: 0 <= i < |w| ==> IsSpace(w[i])
    requires b == [] || !IsSpace(b[0])
    ensures SplitWs(a + w + b) == [a] + SplitWs(b)
    decreases |a| + |w|
  {
    var s := a + w + b;
    if a != [] {
      assert s[1..] == a[1..] + w + b;
      SplitWsAt(a[1..], w, b);
      assert [a[0]] + a[1..] == a;
    } else if |w| > 1 {
      assert s == w + b && s[1] == w[1];
      assert s[1..] == [] + w[1..] + b;
      SplitWsAt([], w[1..], b);
    } else {
      assert s == w + b && s[1..] == b;
    }
  }

  /** `s.replace(/\s+/g, c)`: every maximal run of white space becomes one `c`. */
  function ReplaceWsRuns(s: string, c: char): (r: string)
    ensures forall i :: 0 <= i < |r| ==> r[i] == c || (r[i] in s && !IsSpace(r[i]))
    ensures |r| <= |s|
    decreases |s|
  {
    if s == [] then []
    else if !IsSpace(s[0]) then [s[0]] + ReplaceWsRuns(s[1..], c)
    else if |s| > 1 && IsSpace(s[1]) then ReplaceWsRuns(s[1..], c)
    else [c] + ReplaceWsRuns(s[1..], c)
  }

  /** Each maximal run of white space becomes exactly one `c`, and the text around it
      is kept: a run `a` without white space is copied, the whole run `w` after it is
      replaced, and the replacement goes on after the run. */
  lemma {:induction false} ReplaceWsRunsAt(a: string, w: string, b: string, c: char)
    requires forall i :: 0 <= i < |a| ==> !IsSpace(a[i])
    requires w != [] && forall i :: 0 <= i < |w| ==> IsSpace(w[i])
    requires b == [] || !IsSpace(b[0])
    ensures ReplaceWsRuns(a + w + b, c) == a + [c] + ReplaceWsRuns(b, c)
    decreases |a| + |w|
  {
    var s := a + w + b;
    var tail := ReplaceWsRuns(b, c);
    if a != [] {
      assert s[0] == a[0] && s[1..] == a[1..] + w + b;
      assert ReplaceWsRuns(s, c) == [a[0]] + ReplaceWsRuns(s[1..], c);
      ReplaceWsRunsAt(a[1..], w, b, c);
      assert [a[0]] + (a[1..] + [c] + tail) == ([a[0]] + a[1..]) + [c] + tail;
      assert [a[0]] + a[1..] == a;
    } else if |w| > 1 {
      assert s == w + b && s[1] == w[1];
      assert s[1..] == [] + w[1..] + b;
      assert ReplaceWsRuns(s, c) == ReplaceWsRuns(s[1..], c);
      ReplaceWsRunsAt([], w[1..], b, c);
    } else {
      assert s == w + b && s[1..] == b;
      assert ReplaceWsRuns(s, c) == [c] + tail;
    }
  }

  /** The two regular-expression operations agree: replacing each white-space run by `c`
      is splitting at the runs and joining with `c`. */
  lemma {:induction false} ReplaceIsSplitJoin(s: string, c: char)
    ensures ReplaceWsRuns(s, c) == Join(SplitWs(s), c)
    decreases |s|
  {
    if s != [] {
      ReplaceIsSplitJoin(s[1..], c);
      var rest := SplitWs(s[1..]);
      if !IsSpace(s[0]) {
        JoinConsHead(s[0], rest, c);
      } else if !(|s| > 1 && IsSpace(s[1])) {
        var ps := [[]] + rest;
        assert ps[1..] == rest;
      }
    }
  }

  /** A string without white space is left alone by `replace(/\s+/g, c)`. */
  lemma {:induction false} ReplaceWsRunsNoSpace(s: string, c: char)
    requires forall i :: 0 <= i < |s| ==> !IsSpace(s[i])
    ensures ReplaceWsRuns(s, c) == s
    decreases |s|
  {
    if s != [] {
      ReplaceWsRunsNoSpace(s[1..], c);
      assert [s[0]] + s[1..] == s;
    }
  }
}
