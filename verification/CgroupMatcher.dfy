/** The backtracking search for a container ID, and its agreement with the grammar and its priority. */
module CgroupMatcher {
  import opened GoText
  import opened CgroupGrammar

  // ---------- the search ----------

  /** `([[:alnum:]\-]{1,64})(.scope|$)` at a fixed position, longest ID first. */
  function FindId(s: string, at: nat, n: nat): Option<(nat, bool)>
    requires n <= MAX_ID
  {
    if n == 0 then None
    else if IsId(s, at, n, true) then Some((n, true))
    else if IsId(s, at, n, false) then Some((n, false))
    else FindId(s, at, n - 1)
  }

  /** The rest of the pattern from position i, the tokens still to be consumed being `toks`. */
  function FindRest(toks: seq<Token>, s: string, i: nat): Option<Rest>
    decreases |toks|, 0, 0
  {
    if toks == [] then
      match FindId(s, i, MAX_ID)
      case None => None
      case Some(x) => Some(Rest([], i, x.0, x.1))
    else
      match toks[0]
      case Lit(c) => if i < |s| && s[i] == c then FindRest(toks[1..], s, i + 1) else None
      case AnyChar => if NoNewline(s, i, i + 1) then FindRest(toks[1..], s, i + 1) else None
      case AnyRun => if i <= |s| then FindRun(toks[1..], s, i, |s| - i) else None
  }

  /** A `.*` that may take at most n characters: the greediest choice that lets the rest succeed. */
  function FindRun(toks: seq<Token>, s: string, i: nat, n: nat): Option<Rest>
    decreases |toks|, 1, n
  {
    var here := if NoNewline(s, i, i + n) then FindRest(toks, s, i + n) else None;
    match here
    case Some(r) => Some(r.(runs := [n] + r.runs))
    case None => if n == 0 then None else FindRun(toks, s, i, n - 1)
  }

  function FindAlternative(alts: seq<seq<Token>>, s: string, colon: nat, alt: nat): Option<Parse>
    decreases |alts| - alt
  {
    if alt >= |alts| then None
    else match FindRest(alts[alt], s, colon + 1)
      case Some(r) => Some(Parse(colon, alt, r))
      case None => FindAlternative(alts, s, colon, alt + 1)
  }

  /** The unanchored search: every ':' from position `colon` on, left to right. */
  function FindFrom(alts: seq<seq<Token>>, s: string, colon: nat): Option<Parse>
    decreases |s| - colon
  {
    if colon >= |s| then None
    else
      var here := if s[colon] == ':' then FindAlternative(alts, s, colon, 0) else None;
      if here.Some? then here else FindFrom(alts, s, colon + 1)
  }

  // ---------- the search finds the best parse ----------

  lemma {:induction false} FindIdIsLongest(s: string, at: nat, n: nat)
    requires n <= MAX_ID
    ensures match FindId(s, at, n)
            case None => forall m: nat, scope :: m <= n ==> !IsId(s, at, m, scope)
            case Some(x) =>
              && x.0 <= n && IsId(s, at, x.0, x.1)
              && forall m: nat, scope :: m <= n && IsId(s, at, m, scope) ==>
                   m < x.0 || (m == x.0 && (scope == x.1 || x.1))
  {
    if n > 0 && !IsId(s, at, n, true) && !IsId(s, at, n, false) {
      FindIdIsLongest(s, at, n - 1);
      forall m: nat, scope | m <= n && IsId(s, at, m, scope) ensures m <= n - 1 {}
    }
  }

  ghost predicate IsBestRest(toks: seq<Token>, s: string, i: nat, found: Option<Rest>) {
    match found
    case None => forall q :: !IsRest(toks, s, i, q)
    case Some(r) => IsRest(toks, s, i, r) && forall q :: IsRest(toks, s, i, q) ==> q == r || RestBefore(r, q)
  }

  lemma {:induction false} FindRestIsBest(toks: seq<Token>, s: string, i: nat)
    ensures IsBestRest(toks, s, i, FindRest(toks, s, i))
    decreases |toks|, 0, 0
  {
    if toks == [] {
      FindIdIsLongest(s, i, MAX_ID);
    } else {
      match toks[0]
      case AnyRun =>
        if i <= |s| {
          FindRunIsBest(toks, s, i, |s| - i);
        }
      case _ =>
        FindRestIsBest(toks[1..], s, i + 1);
        forall q ensures IsRest(toks, s, i, q) ==> IsRest(toks[1..], s, i + 1, q) {}
    }
  }

  /** A rest for tokens that start with `.*` is a run and a rest for the other tokens. */
  lemma RunThenRest(toks: seq<Token>, s: string, i: nat, q: Rest)
    requires toks != [] && toks[0] == AnyRun
    ensures IsRest(toks, s, i, q) <==>
            q.runs != [] && NoNewline(s, i, i + q.runs[0]) && IsRest(toks[1..], s, i + q.runs[0], q.(runs := q.runs[1..]))
  {}

  /** The same first run in front of two rests keeps their priority. */
  lemma SameRunFirst(r: Rest, q: Rest, n: nat)
    requires q.runs != [] && q.runs[0] == n
    requires q.(runs := q.runs[1..]) == r || RestBefore(r, q.(runs := q.runs[1..]))
    ensures q == r.(runs := [n] + r.runs) || RestBefore(r.(runs := [n] + r.runs), q)
  {
    assert q.runs == [n] + q.runs[1..];
    assert ([n] + r.runs)[1..] == r.runs;
  }

  lemma {:induction false} FindRunIsBest(toks: seq<Token>, s: string, i: nat, n: nat)
    requires toks != [] && toks[0] == AnyRun && i + n <= |s|
    ensures match FindRun(toks[1..], s, i, n)
            case None => forall q :: IsRest(toks, s, i, q) ==> q.runs[0] > n
            case Some(r) =>
              && IsRest(toks, s, i, r)
              && forall q :: IsRest(toks, s, i, q) && q.runs[0] <= n ==> q == r || RestBefore(r, q)
    decreases |toks| - 1, 1, n
  {
    var here := FindRest(toks[1..], s, i + n);
    FindRestIsBest(toks[1..], s, i + n);
    if n > 0 {
      FindRunIsBest(toks, s, i, n - 1);
    }
    if NoNewline(s, i, i + n) && here.Some? {
      var r := here.value.(runs := [n] + here.value.runs);
      assert r.runs[1..] == here.value.runs;
      RunThenRest(toks, s, i, r);
      forall q | IsRest(toks, s, i, q) && q.runs[0] <= n ensures q == r || RestBefore(r, q) {
        RunThenRest(toks, s, i, q);
        if q.runs[0] == n {
          SameRunFirst(here.value, q, n);
        }
      }
    } else {
      forall q | IsRest(toks, s, i, q) ensures q.runs[0] != n {
        RunThenRest(toks, s, i, q);
      }
    }
  }

  lemma {:induction false} FindAlternativeIsBest(alts: seq<seq<Token>>, s: string, colon: nat, alt: nat)
    requires colon < |s| && s[colon] == ':'
    ensures match FindAlternative(alts, s, colon, alt)
            case None => forall q :: IsParse(alts, s, q) && q.colon == colon ==> q.alt < alt
            case Some(p) =>
              && IsParse(alts, s, p) && p.colon == colon
              && forall q :: IsParse(alts, s, q) && q.colon == colon && q.alt >= alt ==> q == p || Before(p, q)
    decreases |alts| - alt
  {
    if alt < |alts| {
      FindRestIsBest(alts[alt], s, colon + 1);
      FindAlternativeIsBest(alts, s, colon, alt + 1);
    }
  }

  lemma {:induction false} FindFromIsBest(alts: seq<seq<Token>>, s: string, colon: nat)
    ensures match FindFrom(alts, s, colon)
            case None => forall q :: IsParse(alts, s, q) ==> q.colon < colon
            case Some(p) =>
              && IsParse(alts, s, p)
              && forall q :: IsParse(alts, s, q) && q.colon >= colon ==> q == p || Before(p, q)
    decreases |s| - colon
  {
    if colon < |s| {
      if s[colon] == ':' {
        FindAlternativeIsBest(alts, s, colon, 0);
      }
      FindFromIsBest(alts, s, colon + 1);
    }
  }

  /** The search succeeds exactly on the lines that have a parse, and then returns the best one. */
  lemma FindIsBest(alts: seq<seq<Token>>, s: string)
    ensures match FindFrom(alts, s, 0)
            case None => forall q :: !IsParse(alts, s, q)
            case Some(p) => IsBest(alts, s, p)
  {
    FindFromIsBest(alts, s, 0);
  }
}
