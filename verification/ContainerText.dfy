/** The container-ID pattern of proc/proc.go in plain text: what a matching line reads, and which ID it gives. */
module ContainerText {
  import opened GoText
  import opened CgroupGrammar
  import opened CgroupMatcher
  import opened ContainerId

  // ---------- the pattern as text ----------

  predicate OneLine(a: string) {
    '\n' !in a
  }

  ghost predicate IsKube(w: string, a: string, b: string) {
    OneLine(a) && OneLine(b) && w == "/kube" + a + "/" + b + "/"
  }

  ghost predicate IsLongKube(w: string, a: string, b: string, c: string, d: string) {
    OneLine(a) && OneLine(b) && OneLine(c) && OneLine(d) && w == "/kube" + a + "/" + b + "/" + c + "/" + d + "/"
  }

  /** The texts of the ten alternatives in written order; a dot of the pattern is any character but a newline. */
  ghost predicate IsPrefix(k: nat, w: string) {
    match k
    case 0 => w == "/docker/"
    case 1 => exists a, b :: IsKube(w, a, b)
    case 2 => exists a, b, c, d :: IsLongKube(w, a, b, c, d)
    case 3 => exists x: char :: x != '\n' && w == "/system" + [x] + "slice/docker-"
    case 4 => exists x: char :: x != '\n' && w == "/machine" + [x] + "slice/machine-rkt-"
    case 5 => exists x: char :: x != '\n' && w == "/machine" + [x] + "slice/machine-"
    case 6 => w == "/lxc/"
    case 7 => w == "/lxc-libvirt/"
    case 8 => w == "/garden/"
    case 9 => w == "/podman/"
    case _ => false
  }

  predicate IsIdLetter(c: char) {
    'a' <= c <= 'z' || 'A' <= c <= 'Z' || '0' <= c <= '9' || c == '-'
  }

  /** 1 to 64 letters, digits and dashes. */
  predicate IsId64(id: string) {
    1 <= |id| <= 64 && forall i :: 0 <= i < |id| ==> IsIdLetter(id[i])
  }

  /** The end of the line, or any character but a newline and then "scope". */
  predicate IsEnd(tail: string) {
    tail == "" || (tail[0] != '\n' && "scope" <= tail[1..])
  }

  ghost predicate Reads(line: string, pre: string, k: nat, w: string, id: string, tail: string) {
    line == pre + ":" + w + id + tail && IsPrefix(k, w) && IsId64(id) && IsEnd(tail)
  }

  // ---------- pieces of pattern and the text they stand for ----------

  /** The tokens can consume s[i..j]. */
  ghost predicate Spans(toks: seq<Token>, s: string, i: nat, j: nat) {
    exists runs :: Consumes(toks, s, i, runs, j)
  }

  /** The tokens can consume the whole text. */
  ghost predicate Denotes(toks: seq<Token>, w: string) {
    Spans(toks, w, 0, |w|)
  }

  /** Only the consumed text matters. */
  lemma {:induction false} ConsumesPart(
    toks: seq<Token>, s: string, i: nat, runs: seq<nat>, j: nat, from: nat, to: nat)
    requires from <= i <= to <= |s| && from <= j <= to
    ensures Consumes(toks, s, i, runs, j) <==> Consumes(toks, s[from..to], i - from, runs, j - from)
  {
    var t := s[from..to];
    if toks != [] {
      match toks[0]
      case AnyRun =>
        if runs != [] && i + runs[0] <= to {
          NoNewlinePart(s, i, i + runs[0], from, to);
          ConsumesPart(toks[1..], s, i + runs[0], runs[1..], j, from, to);
        } else if Consumes(toks, s, i, runs, j) {
          ConsumesSpan(toks[1..], s, i + runs[0], runs[1..], j);
        }
      case _ =>
        if i < to {
          assert t[i - from] == s[i];
          ConsumesPart(toks[1..], s, i + 1, runs, j, from, to);
        } else if Consumes(toks, s, i, runs, j) {
          ConsumesSpan(toks[1..], s, i + 1, runs, j);
        }
    }
  }

  lemma NoNewlinePart(s: string, i: nat, j: nat, from: nat, to: nat)
    requires from <= i <= to <= |s| && i <= j <= to
    ensures NoNewline(s, i, j) <==> NoNewline(s[from..to], i - from, j - from)
  {
    var t := s[from..to];
    if NoNewline(t, i - from, j - from) {
      forall k | i <= k < j ensures s[k] != '\n' {
        assert t[k - from] == s[k];
      }
    }
  }

  lemma SpansIsDenotes(toks: seq<Token>, s: string, i: nat, j: nat)
    requires i <= |s|
    ensures Spans(toks, s, i, j) <==> i <= j <= |s| && Denotes(toks, s[i..j])
  {
    if Spans(toks, s, i, j) {
      var runs :| Consumes(toks, s, i, runs, j);
      ConsumesSpan(toks, s, i, runs, j);
      ConsumesPart(toks, s, i, runs, j, i, j);
    }
    if i <= j <= |s| && Denotes(toks, s[i..j]) {
      var runs :| Consumes(toks, s[i..j], 0, runs, j - i);
      ConsumesPart(toks, s, i, runs, j, i, j);
    }
  }

  lemma ConsumesBoth(a: seq<Token>, u: string, ra: seq<nat>, b: seq<Token>, v: string, rb: seq<nat>)
    requires Consumes(a, u, 0, ra, |u|) && Consumes(b, v, 0, rb, |v|)
    ensures Consumes(a + b, u + v, 0, ra + rb, |u + v|)
  {
    var s, n := u + v, |u|;
    assert s[0..n] == u && s[n..|s|] == v;
    ConsumesPart(a, s, 0, ra, n, 0, n);
    ConsumesPart(b, s, n, rb, |s|, n, |s|);
    ConsumesJoin(a, b, s, 0, ra, n, rb, |s|);
  }

  lemma DenotesBoth(a: seq<Token>, u: string, b: seq<Token>, v: string)
    requires Denotes(a, u) && Denotes(b, v)
    ensures Denotes(a + b, u + v)
  {
    var ra :| Consumes(a, u, 0, ra, |u|);
    var rb :| Consumes(b, v, 0, rb, |v|);
    ConsumesBoth(a, u, ra, b, v, rb);
  }

  lemma DenotesCut(a: seq<Token>, b: seq<Token>, w: string) returns (u: string, v: string)
    requires Denotes(a + b, w)
    ensures w == u + v && Denotes(a, u) && Denotes(b, v)
  {
    var runs :| Consumes(a + b, w, 0, runs, |w|);
    var n, k := ConsumesCut(a, b, w, 0, runs, |w|);
    ConsumesSpan(a, w, 0, runs[..n], k);
    u, v := w[0..k], w[k..|w|];
    ConsumesPart(a, w, 0, runs[..n], k, 0, k);
    ConsumesPart(b, w, k, runs[n..], |w|, k, |w|);
  }

  lemma DenotesFixed(toks: seq<Token>, w: string)
    requires AnyRun !in toks
    ensures Denotes(toks, w) <==> |w| == |toks| && FitsAt(toks, w, 0)
  {
    forall runs ensures Consumes(toks, w, 0, runs, |w|) <==> runs == [] && |w| == |toks| && FitsAt(toks, w, 0) {
      ConsumesFixed(toks, w, 0, runs, |w|);
    }
    assert Consumes(toks, w, 0, [], |w|) ==> Spans(toks, w, 0, |w|);
  }

  lemma DenotesLits(w: string, t: string)
    ensures Denotes(Lits(w), t) <==> t == w
  {
    DenotesFixed(Lits(w), t);
    if |t| == |w| {
      assert FitsAt(Lits(w), t, 0) <==> forall k :: 0 <= k < |w| ==> TokenFits(Lits(w)[k], t[0 + k]);
      assert forall k :: 0 <= k < |w| ==> (TokenFits(Lits(w)[k], t[0 + k]) <==> t[k] == w[k]);
    }
  }

  lemma DenotesAnyChar(t: string)
    ensures Denotes([AnyChar], t) <==> |t| == 1 && t[0] != '\n'
  {
    DenotesFixed([AnyChar], t);
    if |t| == 1 {
      assert FitsAt([AnyChar], t, 0) <==> TokenFits([AnyChar][0], t[0 + 0]);
    }
  }

  lemma DenotesAnyRun(t: string)
    ensures Denotes([AnyRun], t) <==> OneLine(t)
  {
    if Denotes([AnyRun], t) {
      var runs :| Consumes([AnyRun], t, 0, runs, |t|);
      ConsumesSpan([AnyRun], t, 0, runs, |t|);
    } else if OneLine(t) {
      assert [AnyRun][1..] == [] && [|t|][1..] == [];
      assert Consumes([AnyRun], t, 0, [|t|], |t|);
    }
  }

  // ---------- the alternatives are these texts ----------

  lemma DenotesDotted(u: string, v: string, w: string)
    ensures Denotes(Lits(u) + [AnyChar] + Lits(v), w) <==> exists x: char :: x != '\n' && w == u + [x] + v
  {
    if Denotes(Lits(u) + [AnyChar] + Lits(v), w) {
      var front, v' := DenotesCut(Lits(u) + [AnyChar], Lits(v), w);
      var u', dot := DenotesCut(Lits(u), [AnyChar], front);
      DenotesLits(u, u');
      DenotesAnyChar(dot);
      DenotesLits(v, v');
      assert dot == [dot[0]];
    }
    if x: char :| x != '\n' && w == u + [x] + v {
      DenotesLits(u, u);
      DenotesAnyChar([x]);
      DenotesLits(v, v);
      DenotesBoth(Lits(u), u, [AnyChar], [x]);
      DenotesBoth(Lits(u) + [AnyChar], u + [x], Lits(v), v);
    }
  }

  /** The end of both Kubernetes alternatives: a run between two slashes. */
  lemma DenotesSlashed(w: string)
    ensures Denotes(SLASH + [AnyRun] + SLASH, w) <==> exists b :: OneLine(b) && w == "/" + b + "/"
  {
    if Denotes(SLASH + [AnyRun] + SLASH, w) {
      var front, last := DenotesCut(SLASH + [AnyRun], SLASH, w);
      var first, b := DenotesCut(SLASH, [AnyRun], front);
      DenotesLits("/", first);
      DenotesAnyRun(b);
      DenotesLits("/", last);
    }
    if b :| OneLine(b) && w == "/" + b + "/" {
      DenotesLits("/", "/");
      DenotesAnyRun(b);
      DenotesBoth(SLASH, "/", [AnyRun], b);
      DenotesBoth(SLASH + [AnyRun], "/" + b, SLASH, "/");
    }
  }

  lemma DenotesKube(w: string)
    ensures Denotes(KUBE_SHORT, w) <==> IsPrefix(1, w)
  {
    var post := SLASH + [AnyRun] + SLASH;
    if Denotes(KUBE_SHORT, w) {
      var front, last := DenotesCut(Lits("/kube") + [AnyRun], post, w);
      var kube, a := DenotesCut(Lits("/kube"), [AnyRun], front);
      DenotesLits("/kube", kube);
      DenotesAnyRun(a);
      DenotesSlashed(last);
      var b :| OneLine(b) && last == "/" + b + "/";
      assert w == "/kube" + a + "/" + b + "/";
      assert IsKube(w, a, b);
    }
    if IsPrefix(1, w) {
      var a, b :| IsKube(w, a, b);
      DenotesLits("/kube", "/kube");
      DenotesAnyRun(a);
      DenotesSlashed("/" + b + "/");
      DenotesBoth(Lits("/kube"), "/kube", [AnyRun], a);
      DenotesBoth(Lits("/kube") + [AnyRun], "/kube" + a, post, "/" + b + "/");
      assert w == ("/kube" + a) + ("/" + b + "/");
    }
  }

  lemma DenotesLongKube(w: string)
    ensures Denotes(KUBE_LONG, w) <==> IsPrefix(2, w)
  {
    var mid, post := [AnyRun] + SLASH + [AnyRun] + SLASH + [AnyRun], SLASH + [AnyRun] + SLASH;
    if Denotes(KUBE_LONG, w) {
      var front, last := DenotesCut(Lits("/kube") + mid, post, w);
      var kube, m := DenotesCut(Lits("/kube"), mid, front);
      DenotesLits("/kube", kube);
      DenotesSlashed(last);
      var d :| OneLine(d) && last == "/" + d + "/";
      var abr, c := DenotesCut([AnyRun] + SLASH + [AnyRun] + SLASH, [AnyRun], m);
      DenotesAnyRun(c);
      var ab, second := DenotesCut([AnyRun] + SLASH + [AnyRun], SLASH, abr);
      DenotesLits("/", second);
      var ar, b := DenotesCut([AnyRun] + SLASH, [AnyRun], ab);
      DenotesAnyRun(b);
      var a, first := DenotesCut([AnyRun], SLASH, ar);
      DenotesAnyRun(a);
      DenotesLits("/", first);
      assert w == "/kube" + a + "/" + b + "/" + c + "/" + d + "/";
      assert IsLongKube(w, a, b, c, d);
    }
    if IsPrefix(2, w) {
      var a, b, c, d :| IsLongKube(w, a, b, c, d);
      DenotesLits("/kube", "/kube");
      DenotesLits("/", "/");
      DenotesAnyRun(a);
      DenotesAnyRun(b);
      DenotesAnyRun(c);
      DenotesSlashed("/" + d + "/");
      DenotesBoth([AnyRun], a, SLASH, "/");
      DenotesBoth([AnyRun] + SLASH, a + "/", [AnyRun], b);
      DenotesBoth([AnyRun] + SLASH + [AnyRun], a + "/" + b, SLASH, "/");
      DenotesBoth([AnyRun] + SLASH + [AnyRun] + SLASH, a + "/" + b + "/", [AnyRun], c);
      DenotesBoth(Lits("/kube"), "/kube", mid, a + "/" + b + "/" + c);
      DenotesBoth(Lits("/kube") + mid, "/kube" + (a + "/" + b + "/" + c), post, "/" + d + "/");
      assert w == ("/kube" + (a + "/" + b + "/" + c)) + ("/" + d + "/");
    }
  }

  /** Each alternative of the pattern consumes exactly its texts. */
  lemma AlternativeTexts(k: nat, w: string)
    requires k < 10
    ensures |ALTERNATIVES| == 10 && (Denotes(ALTERNATIVES[k], w) <==> IsPrefix(k, w))
  {
    match k
    case 0 => DenotesLits("/docker/", w);
    case 1 => DenotesKube(w);
    case 2 => DenotesLongKube(w);
    case 3 => DenotesDotted("/system", "slice/docker-", w);
    case 4 => DenotesDotted("/machine", "slice/machine-rkt-", w);
    case 5 => DenotesDotted("/machine", "slice/machine-", w);
    case 6 => DenotesLits("/lxc/", w);
    case 7 => DenotesLits("/lxc-libvirt/", w);
    case 8 => DenotesLits("/garden/", w);
    case _ => DenotesLits("/podman/", w);
  }

  // ---------- parses are readings of the line ----------

  lemma InFiveParts(line: string, colon: nat, at: nat, end: nat)
    requires colon < at <= end <= |line| && line[colon] == ':'
    ensures line == line[..colon] + ":" + line[colon + 1..at] + line[at..end] + line[end..]
  {}

  lemma IdReads(line: string, at: nat, n: nat, scope: bool)
    requires IsId(line, at, n, scope)
    ensures IsId64(line[at..at + n]) && IsEnd(line[at + n..])
  {
    var id := line[at..at + n];
    assert forall k :: 0 <= k < n ==> id[k] == line[at + k];
    if scope {
      assert line[at + n..][1..] == line[at + n + 1..];
    }
  }

  lemma ParseReads(line: string, p: Parse)
    requires IsParse(ALTERNATIVES, line, p)
    ensures p.alt < 10 && p.colon < p.rest.idAt <= p.rest.idAt + p.rest.idLen <= |line|
    ensures Reads(line, line[..p.colon], p.alt, line[p.colon + 1..p.rest.idAt], IdOf(line, p),
                  line[p.rest.idAt + p.rest.idLen..])
  {
    var i, at, end := p.colon + 1, p.rest.idAt, p.rest.idAt + p.rest.idLen;
    AlternativeTexts(0, "");
    ConsumesSpan(ALTERNATIVES[p.alt], line, i, p.rest.runs, at);
    assert Spans(ALTERNATIVES[p.alt], line, i, at);
    SpansIsDenotes(ALTERNATIVES[p.alt], line, i, at);
    AlternativeTexts(p.alt, line[i..at]);
    InFiveParts(line, p.colon, at, end);
    IdReads(line, at, p.rest.idLen, p.rest.scope);
  }

  lemma IdAt(line: string, front: string, id: string, tail: string)
    requires line == front + id + tail && IsId64(id) && IsEnd(tail)
    ensures IsId(line, |front|, |id|, tail != "")
  {
    var at := |front|;
    forall k | at <= k < at + |id| ensures IsIdChar(line[k]) {
      assert line[k] == id[k - at];
    }
    if tail != "" {
      assert line[at + |id|] == tail[0] && line[at + |id| + 1..] == tail[1..];
    }
  }

  lemma ReadingParses(line: string, pre: string, k: nat, w: string, id: string, tail: string) returns (p: Parse)
    requires Reads(line, pre, k, w, id, tail)
    ensures IsParse(ALTERNATIVES, line, p) && IdOf(line, p) == id
    ensures p.colon == |pre| && p.alt == k
    ensures p.rest == Rest(p.rest.runs, |pre| + 1 + |w|, |id|, tail != "")
  {
    var i, at := |pre| + 1, |pre| + 1 + |w|;
    AlternativeTexts(k, w);
    assert line == (pre + ":" + w) + id + tail;
    assert line[i..at] == w && line[at..at + |id|] == id;
    SpansIsDenotes(ALTERNATIVES[k], line, i, at);
    var runs :| Consumes(ALTERNATIVES[k], line, i, runs, at);
    IdAt(line, pre + ":" + w, id, tail);
    p := Parse(|pre|, k, Rest(runs, at, |id|, tail != ""));
  }

  /** Somewhere in the line stands a ':', one of the texts, an ID and an end. */
  ghost predicate NamesContainer(line: string) {
    exists pre, k: nat, w, id, tail :: Reads(line, pre, k, w, id, tail)
  }

  lemma NamesContainerIsHasParse(line: string)
    ensures NamesContainer(line) <==> HasParse(ALTERNATIVES, line)
  {
    if pre, k: nat, w, id, tail :| Reads(line, pre, k, w, id, tail) {
      var p := ReadingParses(line, pre, k, w, id, tail);
    }
    if p :| IsParse(ALTERNATIVES, line, p) {
      ParseReads(line, p);
    }
  }

  /** The lines that are scanned, their escaped dashes replaced. */
  function LinesOf(input: string): seq<string> {
    NormaliseEach(Split(input, '\n'))
  }

  ghost predicate NamesNone(input: string) {
    forall m :: 0 <= m < |LinesOf(input)| ==> !NamesContainer(LinesOf(input)[m])
  }

  /** Empty if no line names a container; otherwise it stands in a reading of the first line that does. */
  ghost predicate IsIdOf(input: string, id: string) {
    if NamesNone(input) then id == ""
    else exists m: nat, pre, k: nat, w, tail :: IsFirstReading(LinesOf(input), m, pre, k, w, id, tail)
  }

  /**
   For every input the ID is that of the first line naming a container, read from the leftmost ':' any reading of
   that line starts at, and there with the text written earliest in the pattern.
   */
  lemma ContainerIdText(input: string)
    ensures IsIdOf(input, GetContainerId(input))
    ensures GetContainerId(input) == "" <==> NamesNone(input)
  {
    var lines, id := LinesOf(input), GetContainerId(input);
    NoIdExactlyIfNoParse(input);
    forall m | 0 <= m < |lines| ensures NamesContainer(lines[m]) <==> HasParse(ALTERNATIVES, lines[m]) {
      NamesContainerIsHasParse(lines[m]);
    }
    if id != "" {
      ContainerIdMeaning(ALTERNATIVES, input);
      var m: nat :| IsIdOfLine(ALTERNATIVES, lines, m, id);
      var p :| IsBestWithId(ALTERNATIVES, lines[m], p, id);
      BestReads(lines, m, p);
    }
  }

  ghost predicate IsFirstReading(
    lines: seq<string>, m: nat, pre: string, k: nat, w: string, id: string, tail: string)
  {
    && m < |lines| && (forall n :: 0 <= n < m ==> !NamesContainer(lines[n]))
    && Reads(lines[m], pre, k, w, id, tail)
    && StartsLeftmost(lines[m], |pre|, k)
  }

  /** No reading starts further left, or there with an alternative written earlier. */
  ghost predicate StartsLeftmost(line: string, n: nat, k: nat) {
    forall pre, j: nat, w, id, tail :: Reads(line, pre, j, w, id, tail) ==> |pre| > n || (|pre| == n && j >= k)
  }

  lemma BestStartsLeftmost(line: string, p: Parse)
    requires IsBest(ALTERNATIVES, line, p)
    ensures StartsLeftmost(line, p.colon, p.alt)
  {
    forall pre, j: nat, w, id, tail | Reads(line, pre, j, w, id, tail)
      ensures |pre| > p.colon || (|pre| == p.colon && j >= p.alt)
    {
      var q := ReadingParses(line, pre, j, w, id, tail);
    }
  }

  lemma BestReads(lines: seq<string>, m: nat, p: Parse)
    requires m < |lines| && IsBest(ALTERNATIVES, lines[m], p)
    requires forall n :: 0 <= n < m ==> !HasParse(ALTERNATIVES, lines[n])
    ensures exists pre, k: nat, w, tail :: IsFirstReading(lines, m, pre, k, w, IdOf(lines[m], p), tail)
  {
    forall n | 0 <= n < m ensures !NamesContainer(lines[n]) {
      NamesContainerIsHasParse(lines[n]);
    }
    var line, at, end := lines[m], p.rest.idAt, p.rest.idAt + p.rest.idLen;
    ParseReads(line, p);
    BestStartsLeftmost(line, p);
    assert IsFirstReading(lines, m, line[..p.colon], p.alt, line[p.colon + 1..at], IdOf(line, p), line[end..]);
  }

  // ---------- which ID is taken ----------

  /** The ID cannot run on: the line ends, or what follows is no letter, digit or dash. */
  predicate StopsId(tail: string) {
    IsEnd(tail) && (tail == "" || !IsIdLetter(tail[0]))
  }

  /** The first line that names a container, at its leftmost ':' that starts a reading. */
  ghost predicate ReadsFirst(input: string, m: nat, pre: string, k: nat, w: string, id: string, tail: string) {
    && m < |LinesOf(input)| && (forall n :: 0 <= n < m ==> !NamesContainer(LinesOf(input)[n]))
    && Reads(LinesOf(input)[m], pre, k, w, id, tail) && StopsId(tail)
    && forall pre', j: nat, w', id', tail' ::
         Reads(LinesOf(input)[m], pre', j, w', id', tail') ==> |pre'| >= |pre|
  }

  /** The best parse of that line gives the ID. */
  lemma BestParse(input: string, m: nat) returns (p: Parse)
    requires m < |LinesOf(input)| && NamesContainer(LinesOf(input)[m])
    requires forall n :: 0 <= n < m ==> !NamesContainer(LinesOf(input)[n])
    ensures IsBest(ALTERNATIVES, LinesOf(input)[m], p) && GetContainerId(input) == IdOf(LinesOf(input)[m], p)
  {
    var lines, id := LinesOf(input), GetContainerId(input);
    ContainerIdMeaning(ALTERNATIVES, input);
    forall n | 0 <= n <= m ensures NamesContainer(lines[n]) <==> HasParse(ALTERNATIVES, lines[n]) {
      NamesContainerIsHasParse(lines[n]);
    }
    var n: nat :| IsIdOfLine(ALTERNATIVES, lines, n, id);
    p :| IsBestWithId(ALTERNATIVES, lines[n], p, id);
    assert HasParse(ALTERNATIVES, lines[n]);
    assert n == m;
  }

  lemma SameStart(line: string, pre: string, w: string, id: string, tail: string, w': string, id': string, tail': string)
    requires line == pre + ":" + w + id + tail && line == line[..|pre|] + ":" + w' + id' + tail'
    ensures w + (id + tail) == w' + (id' + tail')
  {
    assert line[|pre| + 1..] == w + (id + tail);
    assert line[|pre| + 1..] == w' + (id' + tail');
  }

  lemma NoLongerId(line: string, front: string, id: string, tail: string, n: nat, scope: bool)
    requires line == front + id + tail && StopsId(tail) && IsId(line, |front|, n, scope)
    ensures n <= |id|
  {
    if tail != "" {
      assert line[|front| + |id|] == tail[0];
    }
  }

  /** An ID that cannot run on is taken whole, wherever the best parse starts its ID at the same place. */
  lemma WholeId(line: string, p: Parse, front: string, id: string, tail: string)
    requires IsBest(ALTERNATIVES, line, p) && p.rest.idAt == |front|
    requires line == front + id + tail && IsId64(id) && StopsId(tail)
    ensures IdOf(line, p) == id
  {
    IdAt(line, front, id, tail);
    var q := p.(rest := p.rest.(idLen := |id|, scope := tail != ""));
    assert IsParse(ALTERNATIVES, line, q);
    NoLongerId(line, front, id, tail, p.rest.idLen, p.rest.scope);
    LongerFirstAsymmetric(p.rest.runs, p.rest.runs);
    assert p.rest.idLen == |id|;
    assert line[|front|..|front| + |id|] == id;
  }

  // ---------- the texts without a run ----------

  const SECOND := "dkksmmllgp"

  lemma SecondLetter(k: nat, w: string)
    requires IsPrefix(k, w)
    ensures k < 10 && |w| >= 5 && w[0] == '/' && w[1] == SECOND[k]
  {
    match k
    case 1 => var a, b :| IsKube(w, a, b);
    case 2 => var a, b, c, d :| IsLongKube(w, a, b, c, d);
    case _ =>
  }

  lemma NextChar(id: string, tail: string)
    requires tail != ""
    ensures (id + tail)[|id|] == tail[0]
  {}

  lemma LettersAreInId(id: string, tail: string, n: nat)
    requires StopsId(tail) && n <= |id + tail| && forall i :: 0 <= i < n ==> IsIdLetter((id + tail)[i])
    ensures n <= |id|
  {
    if tail != "" {
      NextChar(id, tail);
    }
  }

  lemma RktGoesOn(w: string, id: string, tail: string, w': string, rest: string)
    requires IsPrefix(5, w) && IsPrefix(4, w') && w + (id + tail) == w' + rest
    requires rest != "" && IsIdLetter(rest[0]) && StopsId(tail)
    ensures "rkt-" < id
  {
    var x, y := w' + rest, id + tail;
    assert |w| == 23 && |w'| == 27 && w'[23..] == "rkt-";
    assert x[23..] == y && x[23..] == w'[23..] + rest;
    LettersAreInId(id, tail, 5);
    assert id[..4] == y[..4];
  }

  lemma LxcTextsDiffer(w: string, rest: string, w': string, rest': string)
    requires IsPrefix(7, w) && IsPrefix(6, w')
    ensures w + rest != w' + rest'
  {
    assert (w + rest)[4] == '-' && (w' + rest')[4] == '/';
  }

  lemma SameSecondLetter(k: nat, w: string, rest: string, k': nat, w': string, rest': string)
    requires IsPrefix(k, w) && IsPrefix(k', w') && w + rest == w' + rest'
    ensures k < 10 && k' < 10 && SECOND[k] == SECOND[k']
  {
    SecondLetter(k, w);
    SecondLetter(k', w');
    assert (w + rest)[1] == w[1] && (w' + rest')[1] == w'[1];
  }

  /** No alternative written earlier fits the same text. */
  lemma NoEarlierText(
    k: nat, w: string, id: string, tail: string, k': nat, w': string, id': string, tail': string)
    requires IsPrefix(k, w) && IsPrefix(k', w') && w + (id + tail) == w' + (id' + tail')
    requires IsId64(id') && StopsId(tail)
    requires k != 2 && (k == 5 ==> !("rkt-" < id))
    ensures k' >= k
  {
    SameSecondLetter(k, w, id + tail, k', w', id' + tail');
    if k == 5 && k' == 4 {
      RktGoesOn(w, id, tail, w', id' + tail');
    } else if k == 7 && k' == 6 {
      LxcTextsDiffer(w, id + tail, w', id' + tail');
    }
  }

  lemma FixedLength(k: nat, w: string, w': string)
    requires IsPrefix(k, w) && IsPrefix(k, w') && k != 1 && k != 2
    ensures |w| == |w'|
  {}

  lemma NotBefore(line: string, n: nat, p: Parse)
    requires forall pre, j: nat, w, id, tail :: Reads(line, pre, j, w, id, tail) ==> |pre| >= n
    requires IsParse(ALTERNATIVES, line, p)
    ensures p.colon >= n
  {
    ParseReads(line, p);
  }

  lemma BestNotBehind(line: string, p: Parse, q: Parse)
    requires IsBest(ALTERNATIVES, line, p) && IsParse(ALTERNATIVES, line, q)
    ensures p.colon < q.colon || (p.colon == q.colon && p.alt <= q.alt)
  {
    assert p == q || Before(p, q);
  }

  /** The best parse starts at the same ':'. */
  lemma BestStartsThere(input: string, m: nat, pre: string, k: nat, w: string, id: string, tail: string)
    returns (p: Parse)
    requires ReadsFirst(input, m, pre, k, w, id, tail)
    ensures IsBest(ALTERNATIVES, LinesOf(input)[m], p) && GetContainerId(input) == IdOf(LinesOf(input)[m], p)
    ensures p.colon == |pre| && p.alt <= k
  {
    var line := LinesOf(input)[m];
    p := BestParse(input, m);
    var q := ReadingParses(line, pre, k, w, id, tail);
    NotBefore(line, |pre|, p);
    BestNotBehind(line, p, q);
  }

  /** And it uses the same alternative. */
  lemma BestAtColon(input: string, m: nat, pre: string, k: nat, w: string, id: string, tail: string) returns (p: Parse)
    requires ReadsFirst(input, m, pre, k, w, id, tail) && k != 2 && (k == 5 ==> !("rkt-" < id))
    ensures IsBest(ALTERNATIVES, LinesOf(input)[m], p) && GetContainerId(input) == IdOf(LinesOf(input)[m], p)
    ensures p.colon == |pre| && p.alt == k
  {
    var line := LinesOf(input)[m];
    p := BestStartsThere(input, m, pre, k, w, id, tail);
    ParseReads(line, p);
    var w', tail' := line[p.colon + 1..p.rest.idAt], line[p.rest.idAt + p.rest.idLen..];
    SameStart(line, pre, w, id, tail, w', IdOf(line, p), tail');
    NoEarlierText(k, w, id, tail, p.alt, w', IdOf(line, p), tail');
  }

  /**
   For all texts but the Kubernetes ones: the ID that follows is returned whole, except that after
   "machine-" one that goes on after "rkt-" belongs to the alternative before.
   */
  lemma FixedTextContainerId(input: string, m: nat, pre: string, k: nat, w: string, id: string, tail: string)
    requires ReadsFirst(input, m, pre, k, w, id, tail) && k != 1 && k != 2 && (k == 5 ==> !("rkt-" < id))
    ensures GetContainerId(input) == id
  {
    var line := LinesOf(input)[m];
    var p := BestAtColon(input, m, pre, k, w, id, tail);
    ParseReads(line, p);
    var w' := line[p.colon + 1..p.rest.idAt];
    FixedLength(k, w, w');
    assert line == (pre + ":" + w) + id + tail;
    WholeId(line, p, pre + ":" + w, id, tail);
  }

  /** The texts without a run as they are written in a cgroup file. */
  function Written(k: nat): string {
    match k
    case 0 => "/docker/"
    case 3 => "/system.slice/docker-"
    case 4 => "/machine.slice/machine-rkt-"
    case 5 => "/machine.slice/machine-"
    case 6 => "/lxc/"
    case 7 => "/lxc-libvirt/"
    case 8 => "/garden/"
    case _ => "/podman/"
  }

  lemma WrittenIsPrefix(k: nat)
    requires k < 10 && k != 1 && k != 2
    ensures IsPrefix(k, Written(k))
  {
    match k
    case 3 => assert Written(3) == "/system" + ['.'] + "slice/docker-";
    case 4 => assert Written(4) == "/machine" + ['.'] + "slice/machine-rkt-";
    case 5 => assert Written(5) == "/machine" + ['.'] + "slice/machine-";
    case _ =>
  }

  /** The same for each text as it is written, the ID and the end being spelled out. */
  lemma WrittenTextContainerId(input: string, m: nat, pre: string, k: nat, id: string, tail: string)
    requires k < 10 && k != 1 && k != 2 && (k == 5 ==> !("rkt-" < id))
    requires m < |LinesOf(input)| && LinesOf(input)[m] == pre + ":" + Written(k) + id + tail
    requires 1 <= |id| <= 64
    requires forall i :: 0 <= i < |id| ==>
      'a' <= id[i] <= 'z' || 'A' <= id[i] <= 'Z' || '0' <= id[i] <= '9' || id[i] == '-'
    requires tail == "" || (tail[0] != '\n' && !IsIdLetter(tail[0]) && "scope" <= tail[1..])
    requires forall n :: 0 <= n < m ==> !NamesContainer(LinesOf(input)[n])
    requires forall pre', j: nat, w', id', tail' ::
      Reads(LinesOf(input)[m], pre', j, w', id', tail') ==> |pre'| >= |pre|
    ensures GetContainerId(input) == id
  {
    WrittenIsPrefix(k);
    FixedTextContainerId(input, m, pre, k, Written(k), id, tail);
  }

  // ---------- the Kubernetes texts ----------

  lemma ConsumesLits(w: string)
    ensures Consumes(Lits(w), w, 0, [], |w|)
  {
    ConsumesFixed(Lits(w), w, 0, [], |w|);
    assert forall k :: 0 <= k < |w| ==> TokenFits(Lits(w)[k], w[0 + k]);
  }

  lemma ConsumesRun(w: string)
    requires OneLine(w)
    ensures Consumes([AnyRun], w, 0, [|w|], |w|)
  {
    assert [AnyRun][1..] == [] && [|w|][1..] == [];
  }

  /** The parse of a Kubernetes text that divides it as given. */
  lemma ConsumesKube(a: string, b: string)
    requires OneLine(a) && OneLine(b)
    ensures var w := "/kube" + a + "/" + b + "/"; Consumes(KUBE_SHORT, w, 0, [|a|, |b|], |w|)
  {
    ConsumesLits("/kube");
    ConsumesLits("/");
    ConsumesRun(a);
    ConsumesRun(b);
    ConsumesBoth(Lits("/kube"), "/kube", [], [AnyRun], a, [|a|]);
    ConsumesBoth(SLASH, "/", [], [AnyRun], b, [|b|]);
    ConsumesBoth(SLASH + [AnyRun], "/" + b, [] + [|b|], SLASH, "/", []);
    ConsumesBoth(Lits("/kube") + [AnyRun], "/kube" + a, [] + [|a|],
                 SLASH + [AnyRun] + SLASH, "/" + b + "/", [] + [|b|] + []);
    assert ([] + [|a|]) + ([] + [|b|] + []) == [|a|, |b|];
    assert ("/kube" + a) + ("/" + b + "/") == "/kube" + a + "/" + b + "/";
  }

  /** A Kubernetes text's first run, as the parse counts it, ends at a slash well before the last one. */
  lemma KubeFirstRun(line: string, i: nat, runs: seq<nat>, j: nat)
    requires Consumes(KUBE_SHORT, line, i, runs, j) && i <= |line|
    ensures runs != [] && i + 5 + runs[0] + 2 <= j <= |line| && line[j - 1] == '/'
  {
    var n, k := ConsumesCut(Lits("/kube") + [AnyRun], SLASH + [AnyRun] + SLASH, line, i, runs, j);
    var n1, k1 := ConsumesCut(Lits("/kube"), [AnyRun], line, i, runs[..n], k);
    ConsumesFixed(Lits("/kube"), line, i, runs[..n][..n1], k1);
    assert n1 == 0 && k1 == i + 5;
    assert runs[..n][0..] == runs[..n];
    ConsumesSpan([AnyRun], line, k1, runs[..n], k);
    assert [AnyRun][1..] == [];
    var n2, k2 := ConsumesCut(SLASH + [AnyRun], SLASH, line, k, runs[n..], j);
    var n3, k3 := ConsumesCut(SLASH, [AnyRun], line, k, runs[n..][..n2], k2);
    ConsumesFixed(SLASH, line, k, runs[n..][..n2][..n3], k3);
    ConsumesSpan([AnyRun], line, k3, runs[n..][..n2][n3..], k2);
    ConsumesFixed(SLASH, line, k2, runs[n..][n2..], j);
    assert FitsAt(SLASH, line, k2) ==> TokenFits(SLASH[0], line[k2 + 0]);
  }

  /** The division of a text at its last slash. */
  lemma {:induction false} LastSlash(x: string) returns (u: string, v: string)
    requires '/' in x
    ensures x == u + "/" + v && '/' !in v
  {
    var n := |x| - 1;
    if x[n] == '/' {
      u, v := x[..n], "";
    } else {
      u, v := LastSlash(x[..n]);
      v := v + [x[n]];
    }
  }

  lemma BehindSlash(u: string, v: string, n: nat)
    requires |u| < n < |u + "/" + v|
    ensures (u + "/" + v)[n] in v
  {
    assert (u + "/" + v)[n] == v[n - |u| - 1];
  }

  /** A slash of the text before its last character stands in the first part of that division, or ends it. */
  lemma SlashesBefore(u: string, v: string, n: nat)
    requires '/' !in v && n < |u + "/" + v| && (u + "/" + v)[n] == '/'
    ensures n <= |u|
  {
    if n > |u| {
      BehindSlash(u, v, n);
    }
  }

  /** The parse that divides a Kubernetes text at its last slash but one. */
  lemma KubeParse(line: string, pre: string, a: string, b: string, id: string, tail: string) returns (q: Parse)
    requires OneLine(a) && OneLine(b) && IsId64(id) && IsEnd(tail)
    requires line == pre + ":" + ("/kube" + a + "/" + b + "/") + id + tail
    ensures IsParse(ALTERNATIVES, line, q)
    ensures q == Parse(|pre|, 1, Rest([|a|, |b|], |pre| + |a| + |b| + 8, |id|, tail != ""))
  {
    var w, i := "/kube" + a + "/" + b + "/", |pre| + 1;
    ConsumesKube(a, b);
    assert line[i..i + |w|] == w;
    ConsumesPart(KUBE_SHORT, line, i, [|a|, |b|], i + |w|, i, i + |w|);
    IdAt(line, pre + ":" + w, id, tail);
    AlternativeTexts(1, w);
    q := Parse(|pre|, 1, Rest([|a|, |b|], i + |w|, |id|, tail != ""));
  }

  /** A parse whose ID starts at an earlier slash is preceded by one whose ID starts at the last. */
  lemma LaterSlashIsBetter(line: string, pre: string, a: string, b: string, id: string, tail: string, p: Parse)
    returns (q: Parse)
    requires OneLine(a) && OneLine(b) && '/' !in b && IsId64(id) && IsEnd(tail)
    requires line == pre + ":" + ("/kube" + a + "/" + b + "/") + id + tail
    requires IsParse(ALTERNATIVES, line, p) && p.colon == |pre| && p.alt == 1
    requires p.rest.idAt < |pre| + |a| + |b| + 8
    ensures IsParse(ALTERNATIVES, line, q) && Before(q, p)
  {
    q := KubeParse(line, pre, a, b, id, tail);
    var i := |pre| + 1;
    KubeFirstRun(line, i, p.rest.runs, p.rest.idAt);
    var x, n := a + "/" + b, p.rest.idAt - 1 - (i + 5);
    assert line[i + 5..i + 5 + |x|] == x;
    assert x[n] == line[p.rest.idAt - 1] == '/';
    SlashesBefore(a, b, n);
    assert p.rest.runs[0] < |a|;
  }

  lemma CharBehind(front: string, rest: string, n: nat)
    requires |front| <= n < |front + rest|
    ensures (front + rest)[n] in rest
  {
    assert (front + rest)[n] == rest[n - |front|];
  }

  lemma NoSlashBehind(line: string, front: string, rest: string, n: nat)
    requires line == front + rest && '/' !in rest && n < |line| && line[n] == '/'
    ensures n < |front|
  {
    if n >= |front| {
      CharBehind(front, rest, n);
    }
  }

  lemma IdHasNoSlash(id: string, tail: string)
    requires IsId64(id) && '/' !in tail
    ensures '/' !in id + tail
  {}

  lemma OneLineParts(a: string, b: string)
    ensures OneLine(a + "/" + b) <==> OneLine(a) && OneLine(b)
  {
    assert forall c :: c in a + "/" + b <==> c in a || c == '/' || c in b;
  }

  /** The best parse of a Kubernetes text starts its ID behind the last slash. */
  lemma KubeIdAt(line: string, pre: string, a: string, b: string, id: string, tail: string, p: Parse)
    requires OneLine(a) && OneLine(b) && IsId64(id) && IsEnd(tail) && '/' !in tail
    requires line == pre + ":" + ("/kube" + a + "/" + b + "/") + id + tail
    requires IsBest(ALTERNATIVES, line, p) && p.colon == |pre| && p.alt == 1
    ensures p.rest.idAt == |pre| + |a| + |b| + 8
  {
    var front := pre + ":" + ("/kube" + a + "/" + b + "/");
    assert line == front + (id + tail);
    IdHasNoSlash(id, tail);
    KubeFirstRun(line, |pre| + 1, p.rest.runs, p.rest.idAt);
    NoSlashBehind(line, front, id + tail, p.rest.idAt - 1);
    if p.rest.idAt < |front| {
      var a', b' := Redivided(a, b);
      var q := LaterSlashIsBetter(line, pre, a', b', id, tail, p);
      BeforeAsymmetric(p, q);
    }
  }

  lemma Redivided(a: string, b: string) returns (a': string, b': string)
    requires OneLine(a) && OneLine(b)
    ensures OneLine(a') && OneLine(b') && '/' !in b' && |a'| + |b'| == |a| + |b|
    ensures "/kube" + a + "/" + b + "/" == "/kube" + a' + "/" + b' + "/"
  {
    var x := a + "/" + b;
    a', b' := LastSlash(x);
    OneLineParts(a, b);
    OneLineParts(a', b');
    assert "/kube" + a + "/" + b + "/" == "/kube" + x + "/";
    assert "/kube" + a' + "/" + b' + "/" == "/kube" + x + "/";
  }

  /** After "/kube" the ID is what follows the last slash, given another slash between. */
  lemma KubeContainerId(input: string, m: nat, pre: string, a: string, b: string, id: string, tail: string)
    requires OneLine(a) && OneLine(b) && '/' !in tail
    requires ReadsFirst(input, m, pre, 1, "/kube" + a + "/" + b + "/", id, tail)
    ensures GetContainerId(input) == id
  {
    var w, line := "/kube" + a + "/" + b + "/", LinesOf(input)[m];
    var p := BestAtColon(input, m, pre, 1, w, id, tail);
    KubeIdAt(line, pre, a, b, id, tail, p);
    assert line == (pre + ":" + w) + id + tail;
    WholeId(line, p, pre + ":" + w, id, tail);
  }
}
