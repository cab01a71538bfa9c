/** Puzzle identifiers. The application shows no stable identifier, so both content
    scripts derive one from the first heading that is not one of the application's own
    titles, and the solver derives the same kind of identifier from each entry of the
    puzzle list. */
module PuzzleIds {
  import opened Text
  import opened Wrappers

  /** Headings of the application itself; they never name a puzzle. */
  const GenericHeadings: set<string> := {
    "Conway's Game of Life", "Game of Life", "Puzzles",
    "Game of Life Playground", "Choose Your Challenge"
  }

  /** A trimmed heading that the scan passes over: empty, or one of the generic titles. */
  predicate IsGeneric(text: string) {
    text == [] || text in GenericHeadings
  }

  predicate IsIdChar(c: char) {
    'a' <= c <= 'z' || '0' <= c <= '9' || c == '-'
  }

  predicate IsId(s: string) {
    forall i :: 0 <= i < |s| ==> IsIdChar(s[i])
  }

  /** `replace(/[^a-z0-9-]/g, '')`: keeps the identifier characters, in order. */
  function KeepIdChars(s: string): (r: string)
    ensures IsId(r)
    ensures |r| <= |s|
    ensures forall x :: x in r <==> x in s && IsIdChar(x)
    decreases |s|
  {
    if s == [] then []
    else if IsIdChar(s[0]) then [s[0]] + KeepIdChars(s[1..])
    else KeepIdChars(s[1..])
  }

  /** The dropping keeps the order of what survives: it works on each half of a
      concatenation, and a single character survives exactly when it is an identifier
      character. */
  lemma {:induction false} KeepIdCharsAppend(a: string, b: string)
    ensures KeepIdChars(a + b) == KeepIdChars(a) + KeepIdChars(b)
    ensures forall x :: KeepIdChars([x]) == (if IsIdChar(x) then [x] else [])
    decreases |a|
  {
    if a != [] {
      assert (a + b)[1..] == a[1..] + b;
      KeepIdCharsAppend(a[1..], b);
    } else {
      assert a + b == b;
    }
    forall x
      ensures KeepIdChars([x]) == (if IsIdChar(x) then [x] else [])
    {
      assert [x][1..] == [];
    }
  }

  lemma {:induction false} KeepIdCharsOfId(s: string)
    requires IsId(s)
    ensures KeepIdChars(s) == s
    decreases |s|
  {
    if s != [] {
      KeepIdCharsOfId(s[1..]);
      assert [s[0]] + s[1..] == s;
    }
  }

  /** The identifier of a name: lower-cased, every white-space run turned into one `-`,
      and everything outside `[a-z0-9-]` dropped. The result has no white space. */
  function Normalize(name: string): (r: string)
    ensures IsId(r)
    ensures forall i :: 0 <= i < |r| ==> !IsSpace(r[i])
  {
    KeepIdChars(ReplaceWsRuns(Lower(name), '-'))
  }

  /** An identifier is left unchanged by normalisation. */
  lemma NormalizeOfId(s: string)
    requires IsId(s)
    ensures Normalize(s) == s
  {
    LowerSpec(s);
    assert Lower(s) == s;
    ReplaceWsRunsNoSpace(s, '-');
    KeepIdCharsOfId(s);
  }

  /** Normalising twice is normalising once. */
  lemma NormalizeIdempotent(name: string)
    ensures Normalize(Normalize(name)) == Normalize(name)
  {
    NormalizeOfId(Normalize(name));
  }

  /** The fixed points of normalisation are exactly the strings over `[a-z0-9-]`. */
  lemma NormalizeFixedPoints(s: string)
    ensures Normalize(s) == s <==> IsId(s)
  {
    if IsId(s) {
      NormalizeOfId(s);
    }
  }

  /** The identifier of a heading's text, as both the page scan and the list scan
      compute it (trim, then normalise). */
  function IdOf(headingText: string): (r: string)
    ensures IsId(r)
  {
    Normalize(Trim(headingText))
  }

  /** `getPuzzleId` in solver.js: the identifier of the first `h1`/`h2` in document order
      whose trimmed text is not generic, or `None` (`null`) when every heading is generic. */
  function GetPuzzleId(headings: seq<string>): (r: Option<string>)
    ensures r.None? <==> forall i :: 0 <= i < |headings| ==> IsGeneric(Trim(headings[i]))
    ensures r.Some? ==> IsId(r.value)
    decreases |headings|
  {
    if headings == [] then None
    else if IsGeneric(Trim(headings[0])) then GetPuzzleId(headings[1..])
    else Some(IdOf(headings[0]))
  }

  /** The identifier comes from the first non-generic heading: generic headings before
      it are skipped, and anything after it is ignored. */
  lemma {:induction false} GetPuzzleIdIsFirstTitle(headings: seq<string>, k: nat)
    requires k < |headings| && !IsGeneric(Trim(headings[k]))
    requires forall j :: 0 <= j < k ==> IsGeneric(Trim(headings[j]))
    ensures GetPuzzleId(headings) == Some(IdOf(headings[k]))
    decreases k
  {
    if k > 0 {
      assert IsGeneric(Trim(headings[0]));
      GetPuzzleIdIsFirstTitle(headings[1..], k - 1);
    }
  }

  /** JavaScript truthiness of a `getPuzzleId()` result: `null` and `""` are both falsy,
      and `""` is what a heading made only of dropped characters gives. */
  predicate Truthy(id: Option<string>) {
    id.Some? && id.value != []
  }
}
