/** parseProcFile and deleteEmpty of proc/proc.go. */
module ProcFile {
  import opened GoText

  // ---------- NUL-separated files: cmdline and environ ----------

  function Fields(data: string): seq<string> {
    if data == [] then []
    else Split(if data[|data| - 1] == NUL then data[..|data| - 1] else data, NUL)
  }

  method ParseProcFile(data: string) returns (strParts: seq<string>)
    ensures strParts == Fields(data)
  {
    if |data| < 1 {
      return [];
    }
    var trimmed := data;
    if data[|data| - 1] == NUL {
      trimmed := data[..|data| - 1];
    }
    var parts := Split(trimmed, NUL);
    strParts := [];
    for i := 0 to |parts|
      invariant strParts == parts[..i]
    {
      strParts := strParts + [parts[i]];
    }
  }

  /** How the kernel lays out the strings: each one followed by a NUL. */
  function Render(xs: seq<string>): string {
    if xs == [] then [] else xs[0] + [NUL] + Render(xs[1..])
  }

  lemma {:induction false} RenderIsJoin(xs: seq<string>)
    requires xs != []
    ensures Render(xs) == Join(xs, [NUL]) + [NUL]
  {
    if |xs| > 1 {
      RenderIsJoin(xs[1..]);
      assert Render(xs) == xs[0] + [NUL] + (Join(xs[1..], [NUL]) + [NUL]);
    } else {
      assert Render(xs[1..]) == [];
    }
  }

  lemma FieldsOfRender(xs: seq<string>)
    requires forall i :: 0 <= i < |xs| ==> NUL !in xs[i]
    ensures Fields(Render(xs)) == xs
  {
    if xs != [] {
      RenderIsJoin(xs);
      SplitJoin(xs, NUL);
      assert Render(xs)[..|Render(xs)| - 1] == Join(xs, [NUL]);
    }
  }

  lemma RenderOfFields(data: string)
    ensures Render(Fields(data)) ==
            if data == [] || data[|data| - 1] == NUL then data else data + [NUL]
  {
    if data != [] {
      RenderIsJoin(Fields(data));
      var body := if data[|data| - 1] == NUL then data[..|data| - 1] else data;
      JoinSplit(body, NUL);
      assert body + [NUL] == if data[|data| - 1] == NUL then data else data + [NUL];
    }
  }

  // ---------- deleteEmpty ----------

  function NonEmpty(s: seq<string>): seq<string>
  {
    if s == [] then []
    else if TrimSpace(s[0]) != "" then [TrimSpace(s[0])] + NonEmpty(s[1..])
    else NonEmpty(s[1..])
  }

  /** Each string counts by itself: a blank one goes, any other stays in its place, trimmed. */
  lemma NonEmptyAround(a: seq<string>, s: string, b: seq<string>)
    ensures NonEmpty(a + [s] + b) == NonEmpty(a) + (if IsBlank(s) then [] else [TrimSpace(s)]) + NonEmpty(b)
  {
    TrimSpaceBlank(s);
    NonEmptyConcat(a + [s], b);
    NonEmptyConcat(a, [s]);
    assert [s][1..] == [];
  }

  method DeleteEmpty(s: seq<string>) returns (r: seq<string>)
    ensures r == NonEmpty(s)
  {
    r := [];
    for i := 0 to |s|
      invariant r + NonEmpty(s[i..]) == NonEmpty(s)
    {
      NonEmptyAt(s, i);
      var str := TrimSpace(s[i]);
      if str != "" {
        r := r + [str];
      }
    }
  }

  lemma NonEmptyAt(s: seq<string>, i: nat)
    requires i < |s|
    ensures var str := TrimSpace(s[i]);
            NonEmpty(s[i..]) == (if str != "" then [str] else []) + NonEmpty(s[i + 1..])
  {
    assert s[i..][0] == s[i] && s[i..][1..] == s[i + 1..];
  }

  lemma {:induction false} NonEmptyConcat(a: seq<string>, b: seq<string>)
    ensures NonEmpty(a + b) == NonEmpty(a) + NonEmpty(b)
  {
    if a == [] {
      assert a + b == b;
    } else {
      assert (a + b)[1..] == a[1..] + b;
      NonEmptyConcat(a[1..], b);
    }
  }
}
