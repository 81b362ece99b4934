/** getUIDGID of proc/proc.go: the user and group of a process from its status file. */
module StatusIds {
  import opened GoText
  import opened ProcFile

  const UID := "Uid:"
  const GID := "Gid:"

  datatype Outcome = Ids(uid: nat, gid: nat) | Failed

  // ---------- one line ----------

  function UntilNewline(s: string): string {
    if s == [] || s[0] == '\n' then [] else [s[0]] + UntilNewline(s[1..])
  }

  /** The submatch of `:(.*)`: what follows the leftmost ':' on its line. */
  function AfterColon(line: string): Option<string> {
    if line == [] then None
    else if line[0] == ':' then Some(UntilNewline(line[1..]))
    else AfterColon(line[1..])
  }

  lemma {:induction false} AfterColonIsSome(line: string)
    ensures AfterColon(line).Some? <==> ':' in line
  {
    if line != [] && line[0] != ':' {
      AfterColonIsSome(line[1..]);
      assert line == [line[0]] + line[1..];
    }
  }

  lemma MarkerHasColon(line: string, marker: string)
    requires Contains(line, marker) && ':' in marker
    ensures AfterColon(line).Some?
  {
    AfterColonIsSome(line);
    if ':' !in line {
      ContainsNeedsChar(line, marker, ':');
    }
  }

  /** The first blank- or tab-separated field of a value. */
  function FirstField(value: string): string {
    Split(Split(TrimSpace(value), ' ')[0], '\t')[0]
  }

  lemma FieldOfTrimmed(value: string)
    ensures var t, f := TrimSpace(value), FirstField(value);
            f <= t && ' ' !in f && '\t' !in f && (f == t || t[|f|] == ' ' || t[|f|] == '\t')
  {
    var t := TrimSpace(value);
    SplitHead(t, ' ');
    SplitHead(Split(t, ' ')[0], '\t');
  }

  lemma FirstOfBoth(t: string, f: string, back: string)
    requires f <= t && (f == t || t[|f|] == ' ' || t[|f|] == '\t') && IsBlank(back)
    ensures t + back == f + (t[|f|..] + back)
    ensures var rest := t[|f|..] + back; IsBlank(rest) || rest[0] == ' ' || rest[0] == '\t'
  {}

  /** Behind leading white space, the value's text up to a space or tab or to trailing white space. */
  lemma FirstFieldMeaning(value: string) returns (front: string, rest: string)
    ensures value == front + (FirstField(value) + rest) && IsBlank(front)
    ensures ' ' !in FirstField(value) && '\t' !in FirstField(value)
    ensures IsBlank(rest) || rest[0] == ' ' || rest[0] == '\t'
  {
    var back;
    front, back := TrimSpaceMeaning(value);
    FieldOfTrimmed(value);
    FirstOfBoth(TrimSpace(value), FirstField(value), back);
    rest := TrimSpace(value)[|FirstField(value)|..] + back;
    assert value == front + (TrimSpace(value) + back);
  }

  /** The value of a line is what follows its first colon. */
  lemma {:induction false} ValueOfLine(before: string, value: string)
    requires ':' !in before && '\n' !in value
    ensures ValueOf(before + ":" + value) == value
  {
    var line := before + ":" + value;
    if before == [] {
      assert line[1..] == value;
      UntilNewlineWhole(value);
    } else {
      ValueOfLine(before[1..], value);
      assert line[1..] == before[1..] + ":" + value;
    }
  }

  /** The conversion to uint32, which wraps around. */
  function ToUint32(n: int): nat {
    n % (UINT32_MAX + 1)
  }

  // ---------- the scan ----------

  predicate IsUidLine(line: string) {
    Contains(line, UID)
  }

  predicate IsGidLine(line: string) {
    !IsUidLine(line) && Contains(line, GID)
  }

  predicate IsOther(line: string) {
    !Contains(line, UID) && !Contains(line, GID)
  }

  function ValueOf(line: string): string {
    AfterColon(line).GetOr("")
  }

  function Scan(lines: seq<string>, uid: string, gid: string): (string, string) {
    if lines == [] then (uid, gid)
    else if IsUidLine(lines[0]) then Scan(lines[1..], ValueOf(lines[0]), gid)
    else if IsGidLine(lines[0]) then Scan(lines[1..], uid, ValueOf(lines[0]))
    else if |uid| > 0 && |gid| > 0 then (uid, gid)
    else Scan(lines[1..], uid, gid)
  }

  function Convert(uid: string, gid: string): Outcome {
    if |uid| < 1 && |gid| < 1 then Ids(0, 0)
    else match (ParseInt(FirstField(uid)), ParseInt(FirstField(gid)))
      case (Some(u), Some(g)) => Ids(ToUint32(u), ToUint32(g))
      case _ => Failed
  }

  function UidGidOf(input: string): Outcome {
    var r := Scan(NonEmpty(Split(input, '\n')), "", "");
    Convert(r.0, r.1)
  }

  method GetUidGid(input: string) returns (o: Outcome)
    ensures o == UidGidOf(input)
  {
    var statusMappings := Split(input, '\n');
    statusMappings := DeleteEmpty(statusMappings);
    var uid, gid := "", "";
    var i := 0;
    while i < |statusMappings|
      invariant 0 <= i <= |statusMappings|
      invariant Scan(statusMappings[i..], uid, gid) == Scan(statusMappings, "", "")
    {
      var line := statusMappings[i];
      assert statusMappings[i..][1..] == statusMappings[i + 1..];
      i := i + 1;
      if Contains(line, UID) {
        MarkerHasColon(line, UID);
        var matches := AfterColon(line);
        if matches.Some? {
          uid := matches.value;
          continue;
        }
      }
      if Contains(line, GID) {
        MarkerHasColon(line, GID);
        var matches := AfterColon(line);
        if matches.Some? {
          gid := matches.value;
          continue;
        }
      }
      if |uid| > 0 && |gid| > 0 {
        break;
      }
    }
    if |uid| < 1 && |gid| < 1 {
      return Ids(0, 0);
    }
    var u := ParseInt(FirstField(uid));
    if u.None? {
      return Failed;
    }
    var g := ParseInt(FirstField(gid));
    if g.None? {
      return Failed;
    }
    return Ids(ToUint32(u.value), ToUint32(g.value));
  }

  // ---------- what the scan means ----------

  predicate IsKind(line: string, isUid: bool) {
    if isUid then IsUidLine(line) else IsGidLine(line)
  }

  /** The value of the last Uid line (or Gid line), empty if there is none. */
  function LastValue(lines: seq<string>, isUid: bool): string {
    if lines == [] then ""
    else
      var line := lines[|lines| - 1];
      if IsKind(line, isUid) then ValueOf(line)
      else LastValue(lines[..|lines| - 1], isUid)
  }

  /** The scan gives up at line n: it has neither marker, and both fields were set by the lines before it. */
  predicate StopsAt(lines: seq<string>, n: nat) {
    && n < |lines| && IsOther(lines[n])
    && LastValue(lines[..n], true) != "" && LastValue(lines[..n], false) != ""
  }

  /** The scan sees exactly the first n lines. */
  predicate ScansFirst(lines: seq<string>, n: nat) {
    n <= |lines| && (n < |lines| ==> StopsAt(lines, n)) && forall m :: 0 <= m < n ==> !StopsAt(lines, m)
  }

  lemma {:induction false} ScanFrom(lines: seq<string>, i: nat) returns (n: nat)
    requires i <= |lines| && forall m :: 0 <= m < i ==> !StopsAt(lines, m)
    ensures ScansFirst(lines, n) && i <= n
    ensures Scan(lines[i..], LastValue(lines[..i], true), LastValue(lines[..i], false)) ==
            (LastValue(lines[..n], true), LastValue(lines[..n], false))
    decreases |lines| - i
  {
    if i == |lines| || StopsAt(lines, i) {
      n := i;
    } else {
      assert lines[..i + 1][..i] == lines[..i];
      assert lines[i..][1..] == lines[i + 1..];
      n := ScanFrom(lines, i + 1);
    }
  }

  /**
   For any lines: each result is the value of the last line of its kind among those before the first line
   that has neither marker and comes after both fields were set. Later lines never count, earlier ones are overwritten.
   */
  lemma ScanMeaning(lines: seq<string>) returns (n: nat)
    ensures ScansFirst(lines, n)
    ensures Scan(lines, "", "") == (LastValue(lines[..n], true), LastValue(lines[..n], false))
  {
    n := ScanFrom(lines, 0);
    assert lines[0..] == lines;
  }

  lemma {:induction false} NoLineNoValue(lines: seq<string>, isUid: bool)
    requires forall i :: 0 <= i < |lines| ==> !IsKind(lines[i], isUid)
    ensures LastValue(lines, isUid) == ""
  {
    if lines != [] {
      NoLineNoValue(lines[..|lines| - 1], isUid);
    }
  }

  lemma EmptyFieldFails()
    ensures ParseInt(FirstField("")) == None
  {
    assert Split("", ' ') == [[]] && Split("", '\t') == [[]];
  }

  /**
   If the text has no line of one kind, the answer is an error when the other kind has a value, and user and
   group 0 without an error when it has none either.
   */
  lemma MissingKindDecides(input: string, missing: bool)
    requires forall line :: line in NonEmpty(Split(input, '\n')) ==> !IsKind(line, missing)
    ensures UidGidOf(input) == if LastValue(NonEmpty(Split(input, '\n')), !missing) == "" then Ids(0, 0) else Failed
  {
    var lines := NonEmpty(Split(input, '\n'));
    forall m | 0 <= m <= |lines| ensures LastValue(lines[..m], missing) == "" {
      NoLineNoValue(lines[..m], missing);
    }
    var n := ScanMeaning(lines);
    assert n == |lines| && lines[..n] == lines;
    EmptyFieldFails();
  }

  // ---------- the kernel's form ----------

  /** The numbers of a status line, each after a tab. */
  function Tabbed(ids: seq<nat>): string {
    if ids == [] then [] else ['\t'] + Decimal(ids[0]) + Tabbed(ids[1..])
  }

  lemma {:induction false} TabbedChars(ids: seq<nat>)
    ensures forall c :: c in Tabbed(ids) ==> c == '\t' || IsDigit(c)
    ensures ids != [] ==> IsDigit(Tabbed(ids)[|Tabbed(ids)| - 1])
  {
    if ids != [] {
      TabbedChars(ids[1..]);
      var d := Decimal(ids[0]);
      assert forall c :: c in d ==> IsDigit(c);
      if |ids| == 1 {
        assert Tabbed(ids) == ['\t'] + d;
      }
    }
  }

  lemma {:induction false} UntilNewlineWhole(s: string)
    requires '\n' !in s
    ensures UntilNewline(s) == s
  {
    if s != [] {
      UntilNewlineWhole(s[1..]);
    }
  }

  lemma AfterColonSkips(c: char, rest: string)
    requires c != ':'
    ensures AfterColon([c] + rest) == AfterColon(rest)
  {
    assert ([c] + rest)[1..] == rest;
  }

  /** The value of a line that starts with a marker is the text after it. */
  lemma ValueAfterMarker(a: char, b: char, c: char, rest: string)
    requires a != ':' && b != ':' && c != ':' && '\n' !in rest
    ensures ValueOf([a, b, c, ':'] + rest) == rest
  {
    assert ([':'] + rest)[1..] == rest;
    UntilNewlineWhole(rest);
    AfterColonSkips(c, [':'] + rest);
    AfterColonSkips(b, [c] + ([':'] + rest));
    AfterColonSkips(a, [b] + ([c] + ([':'] + rest)));
    assert [a, b, c, ':'] + rest == [a] + ([b] + ([c] + ([':'] + rest)));
  }

  lemma MarkerAtFront(marker: string, rest: string)
    ensures Contains(marker + rest, marker)
  {
    assert (marker + rest)[0..] == marker + rest;
    assert OccursAt(marker + rest, marker, 0);
  }

  /** A status line such as "Uid:\t1000\t1000\t1000\t1000" is kept whole and its value is what follows the marker. */
  lemma StatusLine(marker: string, ids: seq<nat>)
    requires (marker == UID || marker == GID) && ids != []
    ensures var line := marker + Tabbed(ids);
            && TrimSpace(line) == line
            && (if marker == UID then IsUidLine(line) else IsGidLine(line))
            && ValueOf(line) == Tabbed(ids)
  {
    var t := Tabbed(ids);
    TabbedChars(ids);
    assert '\n' !in t && 'U' !in t;
    TrimSpaceFixed(marker + t);
    MarkerAtFront(marker, t);
    ValueAfterMarker(marker[0], 'i', 'd', t);
    assert marker == [marker[0], 'i', 'd', ':'];
    if marker == GID {
      assert 'U' in UID && 'U' !in GID + t;
      ContainsNeedsChar(GID + t, UID, 'U');
    }
  }

  lemma TrimTabbed(ids: seq<nat>)
    requires ids != []
    ensures TrimSpace(Tabbed(ids)) == Decimal(ids[0]) + Tabbed(ids[1..])
    ensures ' ' !in Decimal(ids[0]) + Tabbed(ids[1..])
  {
    var v, d := Tabbed(ids), Decimal(ids[0]);
    var body := d + Tabbed(ids[1..]);
    TabbedChars(ids);
    assert v == ['\t'] + body;
    assert IsDigit(d[0]) && IsDigit(v[|v| - 1]);
    TrimSpaceLeading('\t', body);
    TrimSpaceFixed(body);
    assert ' ' in body ==> ' ' in v;
  }

  lemma SplitFront(d: string, rest: string)
    requires '\t' !in d && (rest == [] || rest[0] == '\t')
    ensures Split(d + rest, '\t')[0] == d
  {
    SplitWhole(d, '\t');
    if rest == [] {
      assert d + rest == d;
    } else {
      assert d + rest == d + ['\t'] + rest[1..];
      SplitConcat(d, '\t', rest[1..]);
    }
  }

  lemma FirstFieldOfTabbed(ids: seq<nat>)
    requires ids != []
    ensures FirstField(Tabbed(ids)) == Decimal(ids[0])
  {
    TrimTabbed(ids);
    SplitWhole(Decimal(ids[0]) + Tabbed(ids[1..]), ' ');
    SplitFront(Decimal(ids[0]), Tabbed(ids[1..]));
  }

  lemma FieldNumber(ids: seq<nat>)
    requires ids != [] && ids[0] <= INT64_MAX
    ensures Tabbed(ids) != "" && ParseInt(FirstField(Tabbed(ids))) == Some(ids[0])
  {
    FirstFieldOfTabbed(ids);
    ParseOfDecimal(ids[0]);
  }

  lemma ConvertNumbers(uid: string, gid: string, u: nat, g: nat)
    requires uid != ""
    requires ParseInt(FirstField(uid)) == Some(u) && ParseInt(FirstField(gid)) == Some(g)
    ensures Convert(uid, gid) == Ids(u % 4294967296, g % 4294967296)
  {}

  lemma {:induction false} LastValueAppend(a: seq<string>, line: string, isUid: bool)
    ensures LastValue(a + [line], isUid) ==
            if IsKind(line, isUid) then ValueOf(line) else LastValue(a, isUid)
  {
    assert (a + [line])[..|a|] == a;
  }

  /** Adjacent Uid and Gid lines decide the result if the scan reaches them and the line after has no marker. */
  lemma ScanAdjacent(pre: seq<string>, u: string, g: string, post: seq<string>)
    requires IsUidLine(u) && IsGidLine(g) && ValueOf(u) != "" && ValueOf(g) != ""
    requires forall m :: 0 <= m < |pre| ==> !StopsAt(pre, m)
    requires post != [] ==> IsOther(post[0])
    ensures Scan(pre + [u, g] + post, "", "") == (ValueOf(u), ValueOf(g))
  {
    var lines, k := pre + [u, g] + post, |pre|;
    assert lines[..k + 1] == pre + [u] && lines[..k + 2] == pre + [u] + [g];
    LastValueAppend(pre, u, true);
    LastValueAppend(pre + [u], g, true);
    LastValueAppend(pre + [u], g, false);
    assert lines[k] == u && lines[k + 1] == g;
    forall m | 0 <= m < k ensures !StopsAt(lines, m) {
      assert lines[..m] == pre[..m] && lines[m] == pre[m];
      assert !StopsAt(pre, m);
    }
    var n := ScanMeaning(lines);
    assert post != [] ==> lines[k + 2] == post[0];
    assert StopsAt(lines, k + 2) || |lines| == k + 2;
    assert n == k + 2;
  }

  lemma NonEmptyPair(u: string, g: string)
    requires TrimSpace(u) == u != "" && TrimSpace(g) == g != ""
    ensures NonEmpty([u, g]) == [u, g]
  {
    assert [u, g][1..] == [g] && [g][1..] == [];
    assert NonEmpty([g]) == [g];
  }

  /**
   A status text with adjacent Uid and Gid lines yields their first numbers modulo 2^32, whatever markers the earlier
   lines carry as long as the scan does not stop within them, and provided the next non-blank line has no marker.
   */
  lemma AdjacentLinesAreRead(input: string, before: seq<string>, uids: seq<nat>, gids: seq<nat>, after: seq<string>)
    requires uids != [] && gids != [] && uids[0] <= 0x7FFF_FFFF_FFFF_FFFF && gids[0] <= 0x7FFF_FFFF_FFFF_FFFF
    requires Split(input, '\n') == before + ["Uid:" + Tabbed(uids), "Gid:" + Tabbed(gids)] + after
    requires forall m :: 0 <= m < |NonEmpty(before)| ==> !StopsAt(NonEmpty(before), m)
    requires NonEmpty(after) == [] || (!Contains(NonEmpty(after)[0], "Uid:") && !Contains(NonEmpty(after)[0], "Gid:"))
    ensures UidGidOf(input) == Ids(uids[0] % 4294967296, gids[0] % 4294967296)
  {
    var u, g := UID + Tabbed(uids), GID + Tabbed(gids);
    StatusLine(UID, uids);
    StatusLine(GID, gids);
    NonEmptyPair(u, g);
    NonEmptyConcat(before + [u, g], after);
    NonEmptyConcat(before, [u, g]);
    ScanAdjacent(NonEmpty(before), u, g, NonEmpty(after));
    assert NonEmpty(Split(input, '\n')) == NonEmpty(before) + [u, g] + NonEmpty(after);
    FieldNumber(uids);
    FieldNumber(gids);
    ConvertNumbers(Tabbed(uids), Tabbed(gids), uids[0], gids[0]);
  }

  // ---------- when the answer is an error ----------

  /** The lines up to the Uid line: whatever the first one, with the name, holds, no other has a marker. */
  predicate OnlyFirstMayMark(lines: seq<string>) {
    forall i :: 0 < i < |lines| ==> IsOther(lines[i])
  }

  lemma {:induction false} OneLineOneValue(lines: seq<string>)
    requires OnlyFirstMayMark(lines)
    ensures LastValue(lines, true) == "" || LastValue(lines, false) == ""
  {
    if |lines| > 1 {
      OneLineOneValue(lines[..|lines| - 1]);
    }
  }

  lemma OnlyFirstNeverStops(lines: seq<string>, m: nat)
    requires OnlyFirstMayMark(lines)
    ensures !StopsAt(lines, m)
  {
    if m < |lines| {
      OneLineOneValue(lines[..m]);
    }
  }

  /** Adjacent Uid and Gid lines of 32-bit numbers, preceded by a name line and unmarked lines, then an unmarked one. */
  ghost predicate HasKernelForm(
    input: string, before: seq<string>, uids: seq<nat>, gids: seq<nat>, after: seq<string>)
  {
    && uids != [] && gids != [] && uids[0] <= 4294967295 && gids[0] <= 4294967295
    && Split(input, '\n') == before + ["Uid:" + Tabbed(uids), "Gid:" + Tabbed(gids)] + after
    && OnlyFirstMayMark(NonEmpty(before)) && (NonEmpty(after) == [] || IsOther(NonEmpty(after)[0]))
  }

  ghost predicate IsKernelForm(input: string) {
    exists before, uids, gids, after :: HasKernelForm(input, before, uids, gids, after)
  }

  /** Neither text in the kernel's form, whatever the process calls itself, nor a missing file makes an error. */
  lemma KernelFormIsRead(input: string)
    requires input == "" || IsKernelForm(input)
    ensures UidGidOf(input).Ids?
  {
    if input == "" {
      assert Split(input, '\n') == [[]] && NonEmpty(Split(input, '\n')) == [];
    } else {
      var before, uids, gids, after :| HasKernelForm(input, before, uids, gids, after);
      forall m | 0 <= m < |NonEmpty(before)| ensures !StopsAt(NonEmpty(before), m) {
        OnlyFirstNeverStops(NonEmpty(before), m);
      }
      AdjacentLinesAreRead(input, before, uids, gids, after);
    }
  }

  /** A text that breaks off between the two lines does: the user is there and the group is not. */
  lemma CutBeforeGidFails(input: string, before: seq<string>, uids: seq<nat>)
    requires uids != [] && Split(input, '\n') == before + ["Uid:" + Tabbed(uids)]
    requires forall i :: 0 <= i < |NonEmpty(before)| ==> IsOther(NonEmpty(before)[i])
    ensures UidGidOf(input) == Failed
  {
    var u := UID + Tabbed(uids);
    StatusLine(UID, uids);
    NonEmptyConcat(before, [u]);
    assert NonEmpty([u]) == [u];
    LastValueAppend(NonEmpty(before), u, true);
    MissingKindDecides(input, false);
  }
}
