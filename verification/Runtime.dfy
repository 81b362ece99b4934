/** The container runtime cascade of proc/proc.go. */
module Runtime {
  import opened GoText

  const DOCKER := "docker"
  const RKT := "rkt"
  const NSPAWN := "systemd-nspawn"
  const LXC := "lxc"
  const LXC_LIBVIRT := "lxc-libvirt"
  const OPENVZ := "openvz"
  const KUBERNETES := "kube"
  const GARDEN := "garden"
  const PODMAN := "podman"
  const GVISOR := "gvisor"
  const FIREJAIL := "firejail"
  const WSL := "wsl"
  const NOT_FOUND := "not-found"

  /** ContainerRuntimes, in listed order. */
  const RUNTIMES: seq<string> :=
    [DOCKER, RKT, NSPAWN, LXC, LXC_LIBVIRT, OPENVZ, KUBERNETES, GARDEN, PODMAN, GVISOR, FIREJAIL, WSL]

  predicate IsValidContainerRuntime(s: string) {
    s in RUNTIMES
  }

  function FirstContained(runtimes: seq<string>, input: string): string {
    if runtimes == [] then NOT_FOUND
    else if Contains(input, runtimes[0]) then runtimes[0]
    else FirstContained(runtimes[1..], input)
  }

  /** getContainerRuntime */
  function Classify(input: string): string {
    if |TrimSpace(input)| < 1 then NOT_FOUND else FirstContained(RUNTIMES, input)
  }

  /** What the cascade reads from the system, in the order it asks. */
  datatype System = System(
    cgroup: string, hasVz: bool, hasBc: bool, hasRunsc: bool,
    initCmdline: string, versionSignature: string, containerVariable: string, systemdContainer: string)

  /** GetContainerRuntime; the files come through readFileString, which trims them. */
  function GetContainerRuntime(sys: System): string {
    var fromCgroup := Classify(TrimSpace(sys.cgroup));
    var fromInit := Classify(TrimSpace(sys.initCmdline));
    var fromVariable := Classify(sys.containerVariable);
    var fromSystemd := Classify(TrimSpace(sys.systemdContainer));
    if fromCgroup != NOT_FOUND then fromCgroup
    else if sys.hasVz && !sys.hasBc then OPENVZ
    else if sys.hasRunsc then GVISOR
    else if fromInit != NOT_FOUND then fromInit
    else if "Microsoft" <= TrimSpace(sys.versionSignature) then WSL
    else if fromVariable != NOT_FOUND then fromVariable
    else if fromSystemd != NOT_FOUND then fromSystemd
    else NOT_FOUND
  }

  // ---------- what the classifier returns ----------

  /** `r` is the first entry of the list that occurs in the input, or not-found if none does. */
  ghost predicate IsFirstContained(runtimes: seq<string>, input: string, r: string) {
    if r == NOT_FOUND then forall k :: 0 <= k < |runtimes| ==> !Contains(input, runtimes[k])
    else exists k :: 0 <= k < |runtimes| && runtimes[k] == r && Contains(input, r) &&
                     forall m :: 0 <= m < k ==> !Contains(input, runtimes[m])
  }

  lemma {:induction false} FirstContainedMeaning(runtimes: seq<string>, input: string)
    requires NOT_FOUND !in runtimes
    ensures IsFirstContained(runtimes, input, FirstContained(runtimes, input))
  {
    if runtimes != [] && !Contains(input, runtimes[0]) {
      var rest := runtimes[1..];
      FirstContainedMeaning(rest, input);
      var r := FirstContained(rest, input);
      if r != NOT_FOUND {
        var k :| 0 <= k < |rest| && rest[k] == r && forall m :: 0 <= m < k ==> !Contains(input, rest[m]);
        forall m | 0 <= m < k + 1 ensures !Contains(input, runtimes[m]) {
          assert m > 0 ==> runtimes[m] == rest[m - 1];
        }
        assert runtimes[k + 1] == r;
      } else {
        forall m | 0 <= m < |runtimes| ensures !Contains(input, runtimes[m]) {
          assert m > 0 ==> runtimes[m] == rest[m - 1];
        }
      }
    }
  }

  /** The blank-input shortcut changes nothing: no runtime name occurs in blank text. */
  lemma ClassifyMeaning(input: string)
    ensures IsFirstContained(RUNTIMES, input, Classify(input))
    ensures RUNTIMES == ["docker", "rkt", "systemd-nspawn", "lxc", "lxc-libvirt", "openvz", "kube", "garden", "podman",
                         "gvisor", "firejail", "wsl"] && NOT_FOUND == "not-found"
  {
    FirstContainedMeaning(RUNTIMES, input);
    if |TrimSpace(input)| < 1 {
      TrimSpaceBlank(input);
      forall k | 0 <= k < |RUNTIMES| ensures !Contains(input, RUNTIMES[k]) {
        var c := RUNTIMES[k][0];
        assert c in RUNTIMES[k] && !IsSpace(c);
        ContainsNeedsChar(input, RUNTIMES[k], c);
      }
    }
  }

  lemma ContainsSelf(s: string)
    ensures Contains(s, s)
  {
    assert OccursAt(s, s, 0);
  }

  lemma LxcInLibvirt()
    ensures Contains(LXC_LIBVIRT, LXC)
  {
    assert LXC_LIBVIRT[0..] == LXC_LIBVIRT;
    assert OccursAt(LXC_LIBVIRT, LXC, 0);
  }

  /** A name that contains an earlier entry of the list, and is not among the entries up to it, is never answered. */
  lemma EarlierShadows(runtimes: seq<string>, input: string, i: nat, name: string)
    requires NOT_FOUND !in runtimes && name != NOT_FOUND && i < |runtimes| && Contains(name, runtimes[i])
    requires name !in runtimes[..i + 1]
    ensures FirstContained(runtimes, input) != name
  {
    FirstContainedMeaning(runtimes, input);
    assert forall k :: 0 <= k <= i ==> runtimes[k] == runtimes[..i + 1][k];
    if Contains(input, name) {
      ContainsTransitive(input, name, runtimes[i]);
    }
  }

  /** "lxc" is listed earlier and occurs wherever "lxc-libvirt" does. */
  lemma ClassifyShadowsLibvirt(input: string)
    ensures Classify(input) != LXC_LIBVIRT
  {
    LxcInLibvirt();
    assert RUNTIMES[3] == LXC && RUNTIMES[..4] == [DOCKER, RKT, NSPAWN, LXC];
    assert LXC_LIBVIRT !in [DOCKER, RKT, NSPAWN, LXC];
    EarlierShadows(RUNTIMES, input, 3, LXC_LIBVIRT);
  }

  /** Two characters of the m-th runtime that never both occur in a later one, lxc-libvirt apart. */
  function Rare(m: nat): (char, char)
    requires m < |RUNTIMES|
  {
    [('d', 'c'), ('k', 'r'), ('y', 'y'), ('x', 'x'), ('x', 'x'), ('z', 'z'),
     ('k', 'k'), ('d', 'g'), ('p', 'p'), ('v', 'v'), ('f', 'f'), ('w', 'w')][m]
  }

  lemma RareOnesAreMissing(k: nat, m: nat)
    requires m < k < |RUNTIMES| && RUNTIMES[k] != LXC_LIBVIRT
    ensures Rare(m).0 !in RUNTIMES[k] || Rare(m).1 !in RUNTIMES[k]
  {
    // a few names at a time
    if k < 4 {
    } else if k < 8 {
    } else if k < 10 {
    } else {
    }
  }

  lemma LaterRuntimesAreNew(k: nat, m: nat)
    requires m < k < |RUNTIMES| && RUNTIMES[k] != LXC_LIBVIRT
    ensures !Contains(RUNTIMES[k], RUNTIMES[m])
  {
    var (c, d) := Rare(m);
    assert c in RUNTIMES[m] && d in RUNTIMES[m];
    RareOnesAreMissing(k, m);
    ContainsNeedsChar(RUNTIMES[k], RUNTIMES[m], if c !in RUNTIMES[k] then c else d);
  }

  /** The answers the classifier can give are not-found and every listed runtime except lxc-libvirt. */
  lemma ClassifyImage(r: string)
    ensures (exists input :: Classify(input) == r) <==> r == NOT_FOUND || (r in RUNTIMES && r != LXC_LIBVIRT)
  {
    if r == NOT_FOUND {
      assert Classify("") == r;
    } else if r in RUNTIMES && r != LXC_LIBVIRT {
      var k :| 0 <= k < |RUNTIMES| && RUNTIMES[k] == r;
      forall m | 0 <= m < k ensures !Contains(r, RUNTIMES[m]) {
        LaterRuntimesAreNew(k, m);
      }
      ContainsSelf(r);
      ClassifyMeaning(r);
      assert Classify(r) == r;
    } else {
      forall input ensures Classify(input) != r {
        ClassifyMeaning(input);
        ClassifyShadowsLibvirt(input);
      }
    }
  }

  /** No state of the system makes the cascade answer lxc-libvirt; its other answers are listed or not-found. */
  lemma CascadeShadowsLibvirt(sys: System)
    ensures GetContainerRuntime(sys) != LXC_LIBVIRT
    ensures GetContainerRuntime(sys) == NOT_FOUND || GetContainerRuntime(sys) in RUNTIMES
  {
    var inputs := [TrimSpace(sys.cgroup), TrimSpace(sys.initCmdline), sys.containerVariable,
                   TrimSpace(sys.systemdContainer)];
    forall k | 0 <= k < |inputs| ensures Classify(inputs[k]) != LXC_LIBVIRT &&
      (Classify(inputs[k]) == NOT_FOUND || Classify(inputs[k]) in RUNTIMES)
    {
      ClassifyShadowsLibvirt(inputs[k]);
      ClassifyMeaning(inputs[k]);
    }
    assert inputs[0] == TrimSpace(sys.cgroup) && inputs[1] == TrimSpace(sys.initCmdline);
    assert inputs[2] == sys.containerVariable && inputs[3] == TrimSpace(sys.systemdContainer);
  }

  /** The cascade can answer exactly what the classifier can: a listed runtime other than lxc-libvirt, or not-found. */
  lemma CascadeImage(r: string)
    ensures (exists sys :: GetContainerRuntime(sys) == r) <==> r == NOT_FOUND || (r in RUNTIMES && r != LXC_LIBVIRT)
  {
    ClassifyImage(r);
    if input :| Classify(input) == r {
      var sys := System("", false, false, false, "", "", input, "");
      assert GetContainerRuntime(sys) == r;
    }
    forall sys | GetContainerRuntime(sys) == r
      ensures r == NOT_FOUND || (r in RUNTIMES && r != LXC_LIBVIRT)
    {
      CascadeShadowsLibvirt(sys);
    }
  }

  // ---------- which source decides ----------

  /** Some listed runtime occurs in the text. */
  ghost predicate Mentions(text: string) {
    exists k :: 0 <= k < |RUNTIMES| && Contains(text, RUNTIMES[k])
  }

  lemma ClassifyFinds(text: string)
    ensures Classify(text) != "not-found" <==> Mentions(text)
  {
    ClassifyMeaning(text);
  }

  /**
   The first source that has an answer decides: the cgroup file; /proc/vz without /proc/bc; the gVisor directory;
   the command line of process 1; the version signature; the variable; systemd's file. A text answers with the
   first listed runtime that occurs in it.
   */
  lemma CascadeMeaning(sys: System)
    ensures var r := GetContainerRuntime(sys);
            var cgroup, init, systemd := TrimSpace(sys.cgroup), TrimSpace(sys.initCmdline), TrimSpace(sys.systemdContainer);
            if Mentions(cgroup) then IsFirstContained(RUNTIMES, cgroup, r) && r != "not-found"
            else if sys.hasVz && !sys.hasBc then r == "openvz"
            else if sys.hasRunsc then r == "gvisor"
            else if Mentions(init) then IsFirstContained(RUNTIMES, init, r) && r != "not-found"
            else if "Microsoft" <= TrimSpace(sys.versionSignature) then r == "wsl"
            else if Mentions(sys.containerVariable) then
              IsFirstContained(RUNTIMES, sys.containerVariable, r) && r != "not-found"
            else if Mentions(systemd) then IsFirstContained(RUNTIMES, systemd, r) && r != "not-found"
            else r == "not-found"
  {
    forall text
      ensures IsFirstContained(RUNTIMES, text, Classify(text)) && (Classify(text) != "not-found" <==> Mentions(text))
    {
      ClassifyMeaning(text);
      ClassifyFinds(text);
    }
  }
}
