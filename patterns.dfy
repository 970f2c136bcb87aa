/**
 * The direction patterns of the manifest builder. Python's `re.search`
 * is modelled for the patterns the builder is given: a sequence of literal
 * characters and `.` wildcards (the defaults '_1.' and '_2.' are of this
 * form). Without the DOTALL flag `.` matches any character but a newline.
 */
module Patterns {

  datatype Atom = Lit(c: char) | AnyChar

  type Pattern = seq<Atom>

  /** Reads a pattern text whose only metacharacter is `.`. */
  function Compile(src: string): (p: Pattern)
    ensures |p| == |src|
    ensures forall k :: 0 <= k < |src| ==> if src[k] == '.' then p[k] == AnyChar else p[k] == Lit(src[k])
  {
    if src == [] then []
    else (if src[0] == '.' then [AnyChar] else [Lit(src[0])]) + Compile(src[1..])
  }

  /** The default forward-read pattern '_1.'. */
  const ForwardDefault: Pattern := Compile("_1.")

  /** The default reverse-read pattern '_2.'. */
  const ReverseDefault: Pattern := Compile("_2.")

  predicate AtomMatches(a: Atom, ch: char) {
    match a
    case Lit(c) => ch == c
    case AnyChar => ch != '\n'
  }

  /** The pattern matches the text of `s` that starts at position `i`. */
  predicate MatchesAt(p: Pattern, s: string, i: int) {
    0 <= i && i + |p| <= |s| && forall k :: 0 <= k < |p| ==> AtomMatches(p[k], s[i + k])
  }

  /** The pattern matches somewhere in `s`: the meaning of `bool(re.search(p, s))`. */
  ghost predicate Matches(p: Pattern, s: string) {
    exists i :: MatchesAt(p, s, i)
  }

  /** `bool(re.search(p, s))`: tries the pattern at each position from the left. */
  function Search(p: Pattern, s: string): bool
    decreases |s|
  {
    if |s| < |p| then false
    else if MatchesAt(p, s, 0) then true
    else Search(p, s[1..])
  }

  /** The scan finds a match exactly when there is one. */
  lemma {:induction false} SearchCorrect(p: Pattern, s: string)
    ensures Search(p, s) <==> Matches(p, s)
    decreases |s|
  {
    if |s| >= |p| && !MatchesAt(p, s, 0) {
      ShiftMatch(p, s);
      SearchCorrect(p, s[1..]);
    }
  }

  /** Matching in the tail of `s` is matching in `s` one position further right. */
  lemma ShiftMatch(p: Pattern, s: string)
    requires |s| >= 1
    ensures forall j :: MatchesAt(p, s[1..], j) ==> MatchesAt(p, s, j + 1)
    ensures forall i :: i >= 1 && MatchesAt(p, s, i) ==> MatchesAt(p, s[1..], i - 1)
  {
    forall j | 0 <= j
      ensures MatchesAt(p, s[1..], j) <==> MatchesAt(p, s, j + 1)
    {
      if j + 1 + |p| <= |s| {
        forall k | 0 <= k < |p|
          ensures AtomMatches(p[k], s[1..][j + k]) == AtomMatches(p[k], s[j + 1 + k])
        {
        }
      }
    }
  }
}
