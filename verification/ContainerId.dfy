/** getContainerID of proc/proc.go: normalising the dashes, scanning the lines, and what the result means. */
module ContainerId {
  import opened GoText
  import opened CgroupGrammar
  import opened CgroupMatcher

  // ---------- normalising the dashes ----------

  /** How systemd writes a dash inside a unit name. */
  const ESCAPED_DASH := "\\x2d"

  /** How many characters of a non-empty text the next output character stands for. */
  function Width(s: string): (n: nat)
    requires s != []
    ensures 1 <= n <= |s|
  {
    if ESCAPED_DASH <= s then 4 else 1
  }

  function First(s: string): char
    requires s != []
  {
    if ESCAPED_DASH <= s then '-' else s[0]
  }

  /** strings.Replace(s, `\x2d`, "-", -1) */
  function Normalise(s: string): string {
    if s == [] then [] else [First(s)] + Normalise(s[Width(s)..])
  }

  /** Occurrences found from left to right without overlap. */
  function Escapes(s: string): nat {
    if s == [] then 0 else (if ESCAPED_DASH <= s then 1 else 0) + Escapes(s[Width(s)..])
  }

  /** From left to right each `\x2d` becomes a dash and every other character stays. */
  lemma NormaliseMeaning(c: char, s: string)
    ensures Normalise("") == "" && Normalise("\\x2d" + s) == "-" + Normalise(s)
    ensures !("\\x2d" <= [c] + s) ==> Normalise([c] + s) == [c] + Normalise(s)
  {
    assert ("\\x2d" + s)[4..] == s && ([c] + s)[1..] == s;
  }

  lemma {:induction false} NormaliseLength(s: string)
    ensures |Normalise(s)| == |s| - 3 * Escapes(s)
  {
    if s != [] {
      NormaliseLength(s[Width(s)..]);
    }
  }

  /** Dash-free text at the front of the normalised text was already at the front. */
  lemma {:induction false} NormaliseFront(s: string, w: string)
    requires w <= Normalise(s) && '-' !in w
    ensures w <= s
  {
    if w != [] {
      assert w[0] == Normalise(s)[0] == First(s);
      assert w[1..] <= Normalise(s)[1..] == Normalise(s[1..]);
      NormaliseFront(s[1..], w[1..]);
      assert w == [w[0]] + w[1..] && s == [s[0]] + s[1..];
    }
  }

  lemma {:induction false} NormaliseRemoves(s: string)
    ensures !Contains(Normalise(s), ESCAPED_DASH)
  {
    if s != [] {
      var rest := s[Width(s)..];
      NormaliseRemoves(rest);
      var n := Normalise(s);
      assert n[1..] == Normalise(rest);
      assert n[0] == First(s);
      assert '-' !in ESCAPED_DASH && ESCAPED_DASH[0] == '\\';
      assert !(ESCAPED_DASH <= n) by {
        if ESCAPED_DASH <= n {
          NormaliseFront(s, ESCAPED_DASH);
        }
      }
      forall i | 0 <= i <= |n| ensures !OccursAt(n, ESCAPED_DASH, i) {
        assert n[0..] == n;
        if i > 0 {
          assert n[i..] == n[1..][i - 1..];
          assert !OccursAt(n[1..], ESCAPED_DASH, i - 1);
        }
      }
    }
  }

  lemma {:induction false} NormaliseAbsent(s: string)
    requires !Contains(s, ESCAPED_DASH)
    ensures Normalise(s) == s
  {
    if s != [] {
      assert s[0..] == s;
      assert !OccursAt(s, ESCAPED_DASH, 0);
      forall i | 0 <= i <= |s[1..]| ensures !OccursAt(s[1..], ESCAPED_DASH, i) {
        assert s[1..][i..] == s[i + 1..];
        assert !OccursAt(s, ESCAPED_DASH, i + 1);
      }
      NormaliseAbsent(s[1..]);
    }
  }

  lemma NormaliseIdempotent(s: string)
    ensures Normalise(Normalise(s)) == Normalise(s)
  {
    NormaliseRemoves(s);
    NormaliseAbsent(Normalise(s));
  }

  function NormaliseEach(lines: seq<string>): (r: seq<string>)
    ensures |r| == |lines| && forall i :: 0 <= i < |r| ==> r[i] == Normalise(lines[i])
  {
    seq(|lines|, i requires 0 <= i < |lines| => Normalise(lines[i]))
  }

  /** The pattern holds no newline, so it never reaches across one. */
  lemma EscapedLine(a: string, b: string)
    requires '\n' !in a
    ensures ESCAPED_DASH <= a + ['\n'] + b <==> ESCAPED_DASH <= a
  {
    var t := a + ['\n'] + b;
    assert |a| < 4 ==> t[|a|] == '\n';
    assert '\n' !in ESCAPED_DASH;
    assert ESCAPED_DASH <= t ==> forall k :: 0 <= k < 4 ==> t[k] == ESCAPED_DASH[k];
  }

  lemma Regroup(c: char, x: string, y: string)
    ensures [c] + (x + ['\n'] + y) == ([c] + x) + ['\n'] + y
  {}

  lemma {:induction false} NormaliseLine(a: string, b: string)
    requires '\n' !in a
    ensures Normalise(a + ['\n'] + b) == Normalise(a) + ['\n'] + Normalise(b)
    ensures '\n' !in Normalise(a)
  {
    var t := a + ['\n'] + b;
    EscapedLine(a, b);
    if a == [] {
      assert t == ['\n'] + b && t[1..] == b;
    } else {
      assert First(t) == First(a) && Width(t) == Width(a);
      assert t[Width(a)..] == a[Width(a)..] + ['\n'] + b;
      NormaliseLine(a[Width(a)..], b);
      Regroup(First(a), Normalise(a[Width(a)..]), Normalise(b));
    }
  }

  /** Replacing before or after splitting into lines is the same, so no replacement ever spans two lines. */
  lemma {:induction false} NormaliseLines(lines: seq<string>)
    requires lines != [] && forall i :: 0 <= i < |lines| ==> '\n' !in lines[i]
    ensures Split(Normalise(Join(lines, "\n")), '\n') == NormaliseEach(lines)
  {
    if |lines| == 1 {
      NormaliseLine(lines[0], []);
      SplitWhole(Normalise(lines[0]), '\n');
    } else {
      var rest := lines[1..];
      NormaliseLines(rest);
      NormaliseLine(lines[0], Join(rest, "\n"));
      SplitConcat(Normalise(lines[0]), '\n', Normalise(Join(rest, "\n")));
      SplitWhole(Normalise(lines[0]), '\n');
      assert NormaliseEach(lines) == [Normalise(lines[0])] + NormaliseEach(rest);
    }
  }

  lemma NormaliseCommutesWithSplit(s: string)
    ensures Split(Normalise(s), '\n') == NormaliseEach(Split(s, '\n'))
  {
    JoinSplit(s, '\n');
    SplitFree(s, '\n');
    NormaliseLines(Split(s, '\n'));
  }

  // ---------- scanning the lines ----------

  function FirstId(alts: seq<seq<Token>>, lines: seq<string>): string {
    if lines == [] then ""
    else match FindFrom(alts, lines[0], 0)
      case None => FirstId(alts, lines[1..])
      case Some(p) => FindIsBest(alts, lines[0]); IdOf(lines[0], p)
  }

  /** getContainerID for a pattern with the given prefix alternatives. */
  function IdWith(alts: seq<seq<Token>>, input: string): string {
    if |TrimSpace(input)| < 1 then "" else FirstId(alts, Split(Normalise(input), '\n'))
  }

  function GetContainerId(input: string): string {
    IdWith(ALTERNATIVES, input)
  }

  ghost predicate HasParse(alts: seq<seq<Token>>, line: string) {
    exists p :: IsParse(alts, line, p)
  }

  /** The ID of the best parse of line k, no earlier line having a parse. */
  ghost predicate IsIdOfLine(alts: seq<seq<Token>>, lines: seq<string>, k: nat, id: string) {
    && k < |lines|
    && (forall m :: 0 <= m < k ==> !HasParse(alts, lines[m]))
    && exists p :: IsBestWithId(alts, lines[k], p, id)
  }

  ghost predicate IsBestWithId(alts: seq<seq<Token>>, line: string, p: Parse, id: string) {
    IsBest(alts, line, p) && id == IdOf(line, p)
  }

  predicate IsIdText(id: string) {
    1 <= |id| <= MAX_ID && forall k :: 0 <= k < |id| ==> IsIdChar(id[k])
  }

  lemma {:induction false} FirstIdMeaning(alts: seq<seq<Token>>, lines: seq<string>)
    ensures var id := FirstId(alts, lines);
            if id == "" then forall k :: 0 <= k < |lines| ==> !HasParse(alts, lines[k])
            else IsIdText(id) && exists k: nat :: IsIdOfLine(alts, lines, k, id)
  {
    if lines != [] {
      FindIsBest(alts, lines[0]);
      var rest := lines[1..];
      match FindFrom(alts, lines[0], 0)
      case Some(p) =>
        assert IsBestWithId(alts, lines[0], p, IdOf(lines[0], p));
        assert IsIdOfLine(alts, lines, 0, IdOf(lines[0], p));
      case None =>
        FirstIdMeaning(alts, rest);
        var id := FirstId(alts, rest);
        if id == "" {
          forall k | 0 <= k < |lines| ensures !HasParse(alts, lines[k]) {
            assert k > 0 ==> lines[k] == rest[k - 1];
          }
        } else {
          var k: nat :| IsIdOfLine(alts, rest, k, id);
          forall m | 0 <= m < k + 1 ensures !HasParse(alts, lines[m]) {
            assert m > 0 ==> lines[m] == rest[m - 1];
          }
          assert lines[k + 1] == rest[k];
          assert IsIdOfLine(alts, lines, k + 1, id);
        }
    }
  }

  lemma {:induction false} BlankHasNoColon(s: string)
    requires IsBlank(s)
    ensures ':' !in Normalise(s)
  {
    if s != [] {
      assert !IsSpace('\\');
      BlankHasNoColon(s[Width(s)..]);
    }
  }

  lemma {:induction false} SplitKeepsAbsence(s: string, sep: char, c: char)
    requires c !in s
    ensures forall i :: 0 <= i < |Split(s, sep)| ==> c !in Split(s, sep)[i]
  {
    if s != [] {
      SplitKeepsAbsence(s[1..], sep, c);
    }
  }

  /**
   For every input: the result is empty exactly when no line of the normalised text has a parse; otherwise it
   is a run of 1 to 64 ID characters, cut out by the best parse of the first line that has one.
   */
  lemma ContainerIdMeaning(alts: seq<seq<Token>>, input: string)
    ensures var lines, id := NormaliseEach(Split(input, '\n')), IdWith(alts, input);
            if id == "" then forall k :: 0 <= k < |lines| ==> !HasParse(alts, lines[k])
            else IsIdText(id) && exists k: nat :: IsIdOfLine(alts, lines, k, id)
  {
    NormaliseCommutesWithSplit(input);
    var lines := NormaliseEach(Split(input, '\n'));
    FirstIdMeaning(alts, lines);
    if |TrimSpace(input)| < 1 {
      TrimSpaceBlank(input);
      BlankHasNoColon(input);
      SplitKeepsAbsence(Normalise(input), '\n', ':');
      forall k | 0 <= k < |lines| ensures !HasParse(alts, lines[k]) {
        assert ':' !in lines[k];
      }
    }
  }

  lemma NoIdExactlyIfNoParse(input: string)
    ensures var lines := NormaliseEach(Split(input, '\n'));
            GetContainerId(input) == "" <==> forall k :: 0 <= k < |lines| ==> !HasParse(ALTERNATIVES, lines[k])
  {
    ContainerIdMeaning(ALTERNATIVES, input);
    var lines, id := NormaliseEach(Split(input, '\n')), GetContainerId(input);
    if id != "" {
      var k: nat :| IsIdOfLine(ALTERNATIVES, lines, k, id);
      var p :| IsBestWithId(ALTERNATIVES, lines[k], p, id);
      assert HasParse(ALTERNATIVES, lines[k]);
    }
  }

  // ---------- the alternatives against each other ----------

  /** Wherever alternative k consumes some text, alternative m can consume the same text. */
  ghost predicate Subsumed(alts: seq<seq<Token>>, k: nat, m: nat) {
    && k < |alts| && m < |alts|
    && forall s: string, i: nat, runs: seq<nat>, j: nat | i <= |s| && Consumes(alts[k], s, i, runs, j) ::
         exists runs': seq<nat> :: Consumes(alts[m], s, i, runs', j)
  }

  function Without(alts: seq<seq<Token>>, k: nat): seq<seq<Token>>
    requires k < |alts|
  {
    alts[..k] + alts[k + 1..]
  }

  lemma SubsumingIsBetter(alts: seq<seq<Token>>, k: nat, m: nat, s: string, p: Parse) returns (q: Parse)
    requires Subsumed(alts, k, m) && m < k && IsParse(alts, s, p) && p.alt == k
    ensures IsParse(alts, s, q) && Before(q, p)
  {
    var runs' :| Consumes(alts[m], s, p.colon + 1, runs', p.rest.idAt);
    q := Parse(p.colon, m, p.rest.(runs := runs'));
  }

  /** An alternative subsumed by an earlier one never gives the best parse. */
  lemma SubsumedIsNeverBest(alts: seq<seq<Token>>, k: nat, m: nat, s: string, p: Parse)
    requires Subsumed(alts, k, m) && m < k && IsBest(alts, s, p)
    ensures p.alt != k
  {
    if p.alt == k {
      var q := SubsumingIsBetter(alts, k, m, s, p);
      BeforeAsymmetric(p, q);
    }
  }

  lemma SubsumedChangesNoLine(alts: seq<seq<Token>>, k: nat, m: nat, s: string)
    requires Subsumed(alts, k, m) && m < k
    ensures var full, less := FindFrom(alts, s, 0), FindFrom(Without(alts, k), s, 0);
            full.Some? == less.Some? && (full.Some? ==> full.value.rest == less.value.rest)
  {
    var alts' := Without(alts, k);
    var full, less := FindFrom(alts, s, 0), FindFrom(alts', s, 0);
    FindIsBest(alts, s);
    FindIsBest(alts', s);
    forall q ensures IsParse(alts', s, q) <==> IsParse(alts, s, Shift(q, k)) {}
    if full.Some? {
      var p := full.value;
      SubsumedIsNeverBest(alts, k, m, s, p);
      var p' := if p.alt < k then p else p.(alt := p.alt - 1);
      assert Shift(p', k) == p;
      forall q | IsParse(alts', s, q) ensures p' == q || Before(p', q) {
        assert p == Shift(q, k) || Before(p, Shift(q, k));
      }
      BestIsUnique(alts', s, p', less.value);
    }
  }

  /** The parse of the reduced pattern read as a parse of the full one. */
  function Shift(q: Parse, k: nat): Parse {
    if q.alt < k then q else q.(alt := q.alt + 1)
  }

  lemma {:induction false} SubsumedChangesNoLines(alts: seq<seq<Token>>, k: nat, m: nat, lines: seq<string>)
    requires Subsumed(alts, k, m) && m < k
    ensures FirstId(alts, lines) == FirstId(Without(alts, k), lines)
  {
    if lines != [] {
      FindIsBest(alts, lines[0]);
      SubsumedChangesNoLine(alts, k, m, lines[0]);
      SubsumedChangesNoLines(alts, k, m, lines[1..]);
    }
  }

  lemma KubeLongIsSubsumed()
    ensures Subsumed(ALTERNATIVES, 2, 1)
  {
    forall s: string, i: nat, runs: seq<nat>, j: nat | i <= |s| && Consumes(ALTERNATIVES[2], s, i, runs, j)
      ensures exists runs': seq<nat> :: Consumes(ALTERNATIVES[1], s, i, runs', j)
    {
      assert ALTERNATIVES[1] == KUBE_SHORT && ALTERNATIVES[2] == KUBE_LONG;
      var mid := [AnyRun] + SLASH + [AnyRun] + SLASH + [AnyRun];
      var post := SLASH + [AnyRun] + SLASH;
      assert Lits("/kube") + mid + post == KUBE_LONG;
      var runs' := WildcardAbsorbs(Lits("/kube"), mid, post, s, i, runs, j);
      assert Lits("/kube") + [AnyRun] + post == KUBE_SHORT;
    }
  }

  /** Deleting the four-slash Kubernetes alternative changes no result on any input. */
  lemma KubeLongIsRedundant(input: string)
    ensures IdWith(Without(ALTERNATIVES, 2), input) == GetContainerId(input)
  {
    KubeLongIsSubsumed();
    SubsumedChangesNoLines(ALTERNATIVES, 2, 1, Split(Normalise(input), '\n'));
  }
}
