/**
 The container-ID recogniser of proc/proc.go: a declarative grammar for the cgroup pattern,
 the leftmost-first priority Go's regexp package gives it, and the searching matcher.
 */
module CgroupGrammar {
  import opened GoText

  /** One element of a prefix alternative: a literal, `.` or `.*`. */
  datatype Token = Lit(c: char) | AnyChar | AnyRun

  function Lits(w: string): (t: seq<Token>)
    ensures |t| == |w| && forall i :: 0 <= i < |t| ==> t[i] == Lit(w[i])
  {
    seq(|w|, i requires 0 <= i < |w| => Lit(w[i]))
  }

  const SLASH: seq<Token> := Lits("/")
  const KUBE_SHORT: seq<Token> := Lits("/kube") + [AnyRun] + (SLASH + [AnyRun] + SLASH)
  const KUBE_LONG: seq<Token> :=
    Lits("/kube") + ([AnyRun] + SLASH + [AnyRun] + SLASH + [AnyRun]) + (SLASH + [AnyRun] + SLASH)
  const MACHINE: seq<Token> := Lits("/machine") + [AnyChar] + Lits("slice/machine-")
  const RKT: seq<Token> := Lits("/machine") + [AnyChar] + Lits("slice/machine-rkt-")

  /** The alternatives in written order. The dots in the slice names are pattern dots. */
  const ALTERNATIVES: seq<seq<Token>> := [
    Lits("/docker/"), KUBE_SHORT, KUBE_LONG,
    Lits("/system") + [AnyChar] + Lits("slice/docker-"),
    RKT, MACHINE,
    Lits("/lxc/"), Lits("/lxc-libvirt/"), Lits("/garden/"), Lits("/podman/")
  ]

  const MAX_ID: nat := 64

  predicate IsIdChar(c: char) {
    'a' <= c <= 'z' || 'A' <= c <= 'Z' || '0' <= c <= '9' || c == '-'
  }

  predicate NoNewline(s: string, i: nat, j: nat) {
    i <= j <= |s| && forall k :: i <= k < j ==> s[k] != '\n'
  }

  // ---------- the grammar ----------

  /** The tokens consume s[i..j], each `.*` taking the number of characters listed for it in `runs`. */
  predicate Consumes(toks: seq<Token>, s: string, i: nat, runs: seq<nat>, j: nat) {
    if toks == [] then runs == [] && i == j
    else match toks[0]
      case Lit(c) => i < |s| && s[i] == c && Consumes(toks[1..], s, i + 1, runs, j)
      case AnyChar => NoNewline(s, i, i + 1) && Consumes(toks[1..], s, i + 1, runs, j)
      case AnyRun =>
        runs != [] && NoNewline(s, i, i + runs[0]) && Consumes(toks[1..], s, i + runs[0], runs[1..], j)
  }

  /** What follows the ':' in a parse: the choices made by each `.*`, the ID, and which end of `(.scope|$)` applied. */
  datatype Rest = Rest(runs: seq<nat>, idAt: nat, idLen: nat, scope: bool)

  datatype Parse = Parse(colon: nat, alt: nat, rest: Rest)

  predicate ScopeAt(s: string, k: nat) {
    NoNewline(s, k, k + 1) && "scope" <= s[k + 1..]
  }

  /** An ID of n characters at position `at`, followed by `.scope` or the end of the line. */
  predicate IsId(s: string, at: nat, n: nat, scope: bool) {
    && 1 <= n <= MAX_ID && at + n <= |s|
    && (forall k :: at <= k < at + n ==> IsIdChar(s[k]))
    && (if scope then ScopeAt(s, at + n) else at + n == |s|)
  }

  predicate IsRest(toks: seq<Token>, s: string, i: nat, r: Rest) {
    Consumes(toks, s, i, r.runs, r.idAt) && IsId(s, r.idAt, r.idLen, r.scope)
  }

  predicate IsParse(alts: seq<seq<Token>>, s: string, p: Parse) {
    p.colon < |s| && s[p.colon] == ':' && p.alt < |alts| && IsRest(alts[p.alt], s, p.colon + 1, p.rest)
  }

  function IdOf(s: string, p: Parse): string
    requires p.rest.idAt + p.rest.idLen <= |s|
  {
    s[p.rest.idAt..p.rest.idAt + p.rest.idLen]
  }

  // ---------- leftmost-first priority ----------

  predicate LongerFirst(a: seq<nat>, b: seq<nat>) {
    a != [] && b != [] && (a[0] > b[0] || (a[0] == b[0] && LongerFirst(a[1..], b[1..])))
  }

  predicate RestBefore(r: Rest, q: Rest) {
    || LongerFirst(r.runs, q.runs)
    || (r.runs == q.runs && (r.idLen > q.idLen || (r.idLen == q.idLen && r.scope && !q.scope)))
  }

  /** Leftmost ':' first, then the alternative written first, then the greediest choices from left to right. */
  predicate Before(p: Parse, q: Parse) {
    || p.colon < q.colon
    || (p.colon == q.colon && p.alt < q.alt)
    || (p.colon == q.colon && p.alt == q.alt && RestBefore(p.rest, q.rest))
  }

  ghost predicate IsBest(alts: seq<seq<Token>>, s: string, p: Parse) {
    IsParse(alts, s, p) && forall q :: IsParse(alts, s, q) ==> p == q || Before(p, q)
  }

  lemma {:induction false} LongerFirstAsymmetric(a: seq<nat>, b: seq<nat>)
    ensures !(LongerFirst(a, b) && LongerFirst(b, a))
    ensures !LongerFirst(a, a)
  {
    if a != [] {
      LongerFirstAsymmetric(a[1..], if b == [] then [] else b[1..]);
      LongerFirstAsymmetric(a[1..], a[1..]);
    }
  }

  /** No two parses precede each other, so a line has at most one best parse. */
  lemma BeforeAsymmetric(p: Parse, q: Parse)
    ensures !(Before(p, q) && Before(q, p))
  {
    LongerFirstAsymmetric(p.rest.runs, q.rest.runs);
  }

  lemma BestIsUnique(alts: seq<seq<Token>>, s: string, p: Parse, q: Parse)
    requires IsBest(alts, s, p) && IsBest(alts, s, q)
    ensures p == q
  {
    BeforeAsymmetric(p, q);
  }

  // ---------- properties of Consumes ----------

  lemma {:induction false} ConsumesSpan(toks: seq<Token>, s: string, i: nat, runs: seq<nat>, j: nat)
    requires Consumes(toks, s, i, runs, j) && i <= |s|
    ensures i <= j <= |s|
    ensures Lit('\n') !in toks ==> NoNewline(s, i, j)
  {
    if toks != [] {
      match toks[0]
      case AnyRun => ConsumesSpan(toks[1..], s, i + runs[0], runs[1..], j);
      case _ => ConsumesSpan(toks[1..], s, i + 1, runs, j);
    }
  }

  lemma {:induction false} ConsumesJoin(
    a: seq<Token>, b: seq<Token>, s: string, i: nat, ra: seq<nat>, k: nat, rb: seq<nat>, j: nat)
    requires Consumes(a, s, i, ra, k) && Consumes(b, s, k, rb, j)
    ensures Consumes(a + b, s, i, ra + rb, j)
  {
    if a == [] {
      assert a + b == b && ra + rb == rb;
    } else {
      assert (a + b)[1..] == a[1..] + b;
      match a[0]
      case AnyRun =>
        ConsumesJoin(a[1..], b, s, i + ra[0], ra[1..], k, rb, j);
        assert (ra + rb)[1..] == ra[1..] + rb;
      case _ => ConsumesJoin(a[1..], b, s, i + 1, ra, k, rb, j);
    }
  }

  lemma {:induction false} ConsumesCut(
    a: seq<Token>, b: seq<Token>, s: string, i: nat, runs: seq<nat>, j: nat) returns (n: nat, k: nat)
    requires Consumes(a + b, s, i, runs, j)
    ensures n <= |runs| && Consumes(a, s, i, runs[..n], k) && Consumes(b, s, k, runs[n..], j)
  {
    if a == [] {
      assert a + b == b;
      n, k := 0, i;
    } else {
      assert (a + b)[1..] == a[1..] + b;
      match a[0]
      case AnyRun =>
        n, k := ConsumesCut(a[1..], b, s, i + runs[0], runs[1..], j);
        n := n + 1;
        assert runs[..n][1..] == runs[1..][..n - 1];
      case _ => n, k := ConsumesCut(a[1..], b, s, i + 1, runs, j);
    }
  }

  predicate TokenFits(t: Token, c: char) {
    match t
    case Lit(d) => c == d
    case AnyChar => c != '\n'
    case AnyRun => false
  }

  predicate FitsAt(toks: seq<Token>, s: string, i: nat) {
    i + |toks| <= |s| && forall k :: 0 <= k < |toks| ==> TokenFits(toks[k], s[i + k])
  }

  lemma FitsAtCons(toks: seq<Token>, s: string, i: nat)
    requires toks != []
    ensures FitsAt(toks, s, i) <==> i < |s| && TokenFits(toks[0], s[i]) && FitsAt(toks[1..], s, i + 1)
  {
    if i < |s| && TokenFits(toks[0], s[i]) && FitsAt(toks[1..], s, i + 1) {
      forall k | 1 <= k < |toks| ensures TokenFits(toks[k], s[i + k]) {
        assert TokenFits(toks[1..][k - 1], s[i + 1 + (k - 1)]);
      }
    }
    if FitsAt(toks, s, i) {
      forall k | 0 <= k < |toks| - 1 ensures TokenFits(toks[1..][k], s[i + 1 + k]) {
        assert TokenFits(toks[k + 1], s[i + (k + 1)]);
      }
    }
  }

  /** Without a `.*` the consumed text is as long as the pattern and fits it position by position. */
  lemma {:induction false} ConsumesFixed(toks: seq<Token>, s: string, i: nat, runs: seq<nat>, j: nat)
    requires AnyRun !in toks && i <= |s|
    ensures Consumes(toks, s, i, runs, j) <==> runs == [] && j == i + |toks| && FitsAt(toks, s, i)
  {
    if toks != [] {
      FitsAtCons(toks, s, i);
      if i < |s| {
        ConsumesFixed(toks[1..], s, i + 1, runs, j);
      }
    }
  }

  /** A `.*` swallows whatever any newline-free piece of pattern can consume. */
  lemma WildcardAbsorbs(
    pre: seq<Token>, mid: seq<Token>, post: seq<Token>, s: string, i: nat, runs: seq<nat>, j: nat)
    returns (runs': seq<nat>)
    requires Consumes(pre + mid + post, s, i, runs, j) && i <= |s| && Lit('\n') !in mid
    ensures Consumes(pre + [AnyRun] + post, s, i, runs', j)
  {
    var n, k2 := ConsumesCut(pre + mid, post, s, i, runs, j);
    var m, k1 := ConsumesCut(pre, mid, s, i, runs[..n], k2);
    ConsumesSpan(pre, s, i, runs[..n][..m], k1);
    ConsumesSpan(mid, s, k1, runs[..n][m..], k2);
    assert Consumes([AnyRun], s, k1, [k2 - k1], k2);
    ConsumesJoin(pre, [AnyRun], s, i, runs[..n][..m], k1, [k2 - k1], k2);
    runs' := runs[..n][..m] + [k2 - k1] + runs[n..];
    ConsumesJoin(pre + [AnyRun], post, s, i, runs[..n][..m] + [k2 - k1], k2, runs[n..], j);
  }
}
